/**
 * HTML-mode body rendering (`output_html_content`): the text between tags
 * is copied unescaped, every `<...>` span is dropped, and in teaser mode a
 * budget of 100 input bytes decides where the output stops.
 */
module HtmlText {
  import opened Wrappers
  import opened CStrings
  import PlainText

  /**
   * The text of `s` outside tags, read byte by byte from index `i`; `inTag`
   * says whether a `<` is open. An unclosed `<` hides the rest of the text.
   */
  function StripFrom(s: seq<char>, i: nat, inTag: bool): seq<char>
    requires i <= |s|
    decreases |s| - i
  {
    if i == |s| then []
    else if inTag then StripFrom(s, i + 1, s[i] != '>')
    else if s[i] == '<' then StripFrom(s, i + 1, true)
    else [s[i]] + StripFrom(s, i + 1, false)
  }

  /** `s` with every `<...>` span removed. */
  function StripTags(s: seq<char>): seq<char> {
    StripFrom(s, 0, false)
  }

  /**
   * The end of the word that starts being cut at `from`: the first space in
   * `[from, limit)`, or `limit`, where the renderer has put a NUL.
   */
  function WordEnd(s: seq<char>, from: nat, limit: nat): (r: nat)
    requires from <= limit <= |s|
    ensures from <= r <= limit
    ensures r < limit ==> s[r] == ' '
    decreases limit - from
  {
    if from == limit || s[from] == ' ' then from else WordEnd(s, from + 1, limit)
  }

  /** No index between `from` and `WordEnd(s, from, limit)` holds a space. */
  lemma {:induction false} WordEndSkips(s: seq<char>, from: nat, limit: nat)
    requires from <= limit <= |s|
    ensures forall j :: from <= j < WordEnd(s, from, limit) ==> s[j] != ' '
    decreases limit - from
  {
    if from < limit && s[from] != ' ' {
      WordEndSkips(s, from + 1, limit);
    }
  }

  /** A scan that stops at the first space before `limit` (or at `limit`) stops at `WordEnd`. */
  lemma {:induction false} WordEndFirst(s: seq<char>, from: nat, limit: nat, k: nat)
    requires from <= k <= limit <= |s|
    requires k < limit ==> s[k] == ' '
    requires forall j :: from <= j < k ==> s[j] != ' '
    ensures WordEnd(s, from, limit) == k
    decreases k - from
  {
    if from < k {
      WordEndFirst(s, from + 1, limit, k);
    }
  }

  /**
   * What the HTML renderer writes from byte `i` on, read one byte at a time.
   * `budget` is what is left of the byte budget, `inTag` whether a `<` is
   * open. Outside a tag every byte costs one unit of budget, the `<` that
   * opens a tag included, and is written unless it is that `<`. Once the
   * budget is spent the current word is finished: bytes are written up to,
   * not including, the next space or `<`, and the output ends. A `>` closes
   * the tag; if the budget is spent by then the output ends. Bytes inside a
   * tag cost nothing. The end of the text ends the output.
   */
  function HtmlChars(s: seq<char>, i: nat, budget: int, inTag: bool): seq<char>
    requires i <= |s|
    decreases |s| - i
  {
    if i == |s| then []
    else if inTag then
      if s[i] != '>' then HtmlChars(s, i + 1, budget, true)
      else if budget > 0 then HtmlChars(s, i + 1, budget, false)
      else []
    else if budget > 0 then
      if s[i] == '<' then HtmlChars(s, i + 1, budget - 1, true)
      else [s[i]] + HtmlChars(s, i + 1, budget - 1, false)
    else if s[i] == ' ' || s[i] == '<' then []
    else [s[i]] + HtmlChars(s, i + 1, budget, false)
  }

  /** The starting budget: 100 bytes for a teaser, the whole length otherwise. */
  function InitialBudget(s: CStr, shorten: bool): int {
    if shorten then PlainText.TeaserBudget else |s|
  }

  /** What `output_html_content` writes for `s`. */
  function HtmlRender(s: CStr, shorten: bool): seq<char> {
    HtmlChars(s, 0, InitialBudget(s, shorten), false)
  }

  /** Text bytes within the budget are written as they are. */
  lemma {:induction false} TextRun(s: seq<char>, pos: nat, k: nat, budget: int)
    requires pos <= k <= |s| && k - pos <= budget
    requires forall j :: pos <= j < k ==> s[j] != '<'
    ensures HtmlChars(s, pos, budget, false) == s[pos..k] + HtmlChars(s, k, budget - (k - pos), false)
    decreases k - pos
  {
    if pos < k {
      var rest := HtmlChars(s, k, budget - (k - pos), false);
      TextRun(s, pos + 1, k, budget - 1);
      assert HtmlChars(s, pos, budget, false) == [s[pos]] + HtmlChars(s, pos + 1, budget - 1, false);
      AppendAssoc([s[pos]], s[pos + 1..k], rest);
      assert [s[pos]] + s[pos + 1..k] == s[pos..k];
    }
  }

  /** With the budget spent, the bytes of the current word are written as they are. */
  lemma {:induction false} CutRun(s: seq<char>, pos: nat, k: nat, budget: int)
    requires pos <= k <= |s| && budget <= 0
    requires forall j :: pos <= j < k ==> s[j] != '<' && s[j] != ' '
    ensures HtmlChars(s, pos, budget, false) == s[pos..k] + HtmlChars(s, k, budget, false)
    decreases k - pos
  {
    if pos < k {
      var rest := HtmlChars(s, k, budget, false);
      CutRun(s, pos + 1, k, budget);
      assert HtmlChars(s, pos, budget, false) == [s[pos]] + HtmlChars(s, pos + 1, budget, false);
      AppendAssoc([s[pos]], s[pos + 1..k], rest);
      assert [s[pos]] + s[pos + 1..k] == s[pos..k];
    }
  }

  /** Bytes inside a tag are skipped. */
  lemma {:induction false} TagRun(s: seq<char>, i: nat, q: nat, budget: int)
    requires i <= q <= |s|
    requires forall j :: i <= j < q ==> s[j] != '>'
    ensures HtmlChars(s, i, budget, true) == HtmlChars(s, q, budget, true)
    decreases q - i
  {
    if i < q {
      assert HtmlChars(s, i, budget, true) == HtmlChars(s, i + 1, budget, true);
      TagRun(s, i + 1, q, budget);
    }
  }

  /**
   * What is left to write after a segment that ends at `p` and was written
   * whole: nothing at the end of the text, otherwise the tag that starts
   * there, with `left` units of budget.
   */
  function AfterSegment(s: seq<char>, p: nat, left: int): seq<char>
    requires p <= |s|
  {
    if p == |s| then [] else HtmlChars(s, p + 1, left, true)
  }

  /**
   * A segment (the text from `pos` up to the next `<`, at `p`) shorter than
   * the budget is written whole; it and its `<` are paid for.
   */
  lemma HtmlWholeSegment(s: seq<char>, pos: nat, budget: int, p: nat)
    requires pos <= |s| && p == FindFrom(s, pos, '<') && p - pos < budget
    ensures HtmlChars(s, pos, budget, false) == s[pos..p] + AfterSegment(s, p, budget - (p - pos + 1))
  {
    FindFromSkips(s, pos, '<');
    TextRun(s, pos, p, budget);
    if p < |s| {
      assert HtmlChars(s, p, budget - (p - pos), false) ==
        HtmlChars(s, p + 1, budget - (p - pos + 1), true);
    } else {
      assert HtmlChars(s, p, budget - (p - pos), false) == [];
    }
  }

  /**
   * A segment at least as long as the budget is cut at `k`, the first space
   * at or after offset `budget` (or the segment's end), and the output ends there.
   */
  lemma HtmlCutSegment(s: seq<char>, pos: nat, budget: int, p: nat, k: nat)
    requires pos <= |s| && budget > 0 && p == FindFrom(s, pos, '<') && p - pos >= budget
    requires k == WordEnd(s, pos + budget, p)
    ensures HtmlChars(s, pos, budget, false) == s[pos..k]
  {
    FindFromSkips(s, pos, '<');
    WordEndSkips(s, pos + budget, p);
    TextRun(s, pos, pos + budget, budget);
    CutRun(s, pos + budget, k, 0);
    assert HtmlChars(s, k, 0, false) == [];
    AppendEmpty(s[pos + budget..k]);
    assert s[pos..pos + budget] + s[pos + budget..k] == s[pos..k];
  }

  /**
   * Inside a tag whose `>` is at `q` (or that is never closed, `q == |s|`),
   * the output resumes after the `>` if budget is left; otherwise it ends.
   */
  lemma HtmlTagEnd(s: seq<char>, i: nat, budget: int, q: nat)
    requires i <= |s| && q == FindFrom(s, i, '>')
    ensures HtmlChars(s, i, budget, true) ==
      if q == |s| || budget <= 0 then [] else HtmlChars(s, q + 1, budget, false)
  {
    FindFromSkips(s, i, '>');
    TagRun(s, i, q, budget);
  }

  /**
   * One segment from `pos`, whose `<` is at `p`: the text up to `stop` is
   * written, and unless the segment was cut, the tag after it follows with
   * `left` units of budget.
   */
  lemma HtmlSegment(s: seq<char>, pos: nat, budget: int, p: nat, stop: nat, left: int)
    requires pos <= |s| && budget > 0 && p == FindFrom(s, pos, '<')
    requires stop == if p - pos >= budget then WordEnd(s, pos + budget, p) else p
    requires p - pos < budget ==> left == budget - (p - pos + 1)
    ensures pos <= stop <= p
    ensures HtmlChars(s, pos, budget, false) ==
      s[pos..stop] + if p - pos >= budget then [] else AfterSegment(s, p, left)
  {
    if p - pos >= budget {
      HtmlCutSegment(s, pos, budget, p, stop);
      AppendEmpty(s[pos..stop]);
    } else {
      HtmlWholeSegment(s, pos, budget, p);
    }
  }

  /**
   * After a segment written whole, the output resumes behind the tag's `>`,
   * at `q`, if budget is left; an unclosed tag or a spent budget ends it.
   */
  lemma AfterTag(s: seq<char>, p: nat, left: int, q: nat)
    requires p < |s| && q == FindFrom(s, p + 1, '>')
    ensures AfterSegment(s, p, left) ==
      if q == |s| || left <= 0 then [] else HtmlChars(s, q + 1, left, false)
  {
    HtmlTagEnd(s, p + 1, left, q);
  }

  /**
   * One pass of the segment loop from `pos` with `budget`: the text up to
   * `stop` is written, then the output goes on after the closing `>` at `q`
   * if there is one and budget is left.
   */
  lemma SegmentStep(s: seq<char>, pos: nat, budget: int, p: nat, stop: nat, left: int, q: nat)
    requires pos < |s| && budget > 0 && p == FindFrom(s, pos, '<')
    requires stop == if p - pos >= budget then WordEnd(s, pos + budget, p) else p
    requires left == (if p - pos >= budget then stop - pos else budget) - (p + 1 - pos)
    requires p < |s| ==> q == FindFrom(s, p + 1, '>')
    ensures pos <= stop <= p
    ensures HtmlChars(s, pos, budget, false) ==
      s[pos..stop] + if p < |s| && q < |s| && left > 0 then HtmlChars(s, q + 1, left, false) else []
  {
    HtmlSegment(s, pos, budget, p, stop, left);
    if p - pos < budget && p < |s| {
      AfterTag(s, p, left, q);
    }
  }

  /**
   * The two scans of one pass of `output_html_content`: `end` is the next
   * `<` (or the end of the text), and when the segment reaches the budget,
   * `length` grows until `start + length` is the end of the word there.
   */
  method ScanSegment(content: seq<char>, start: nat, length: int) returns (end: nat, extended: int)
    requires start <= |content| && length > 0
    ensures end == FindFrom(content, start, '<')
    ensures extended == if end - start >= length then WordEnd(content, start + length, end) - start else length
  {
    // Strip all HTML tags: the segment runs up to the next '<'.
    end := ScanTo(content, start, '<');
    extended := length;
    if end - start >= length {
      // Find the end of the current word.
      while start + extended < end && content[start + extended] != ' '
        invariant length <= extended && start + extended <= end
        invariant forall j :: start + length <= j < start + extended ==> content[j] != ' '
      {
        extended := extended + 1;
      }
      WordEndFirst(content, start + length, end, start + extended);
    }
  }

  /**
   * One pass of the loop body of `output_html_content` from `start` with
   * `length` characters of budget: `piece` is what `fputs` writes, and when
   * `more` holds the next pass starts at `next` with budget `left`. When the
   * segment has no `<`, or its tag no `>`, the pass ends the output where the
   * C code would step past the terminator.
   */
  method SegmentPass(content: seq<char>, start: nat, length: int)
    returns (piece: seq<char>, next: nat, left: int, more: bool)
    requires start < |content| && length > 0
    ensures more ==> start < next <= |content| && left > 0
    ensures HtmlChars(content, start, length, false) ==
      piece + if more then HtmlChars(content, next, left, false) else []
  {
    var end, extended := ScanSegment(content, start, length);
    // The C code stores a NUL at `end`, and at the cut when there is one.
    var stop := if start + extended < end then start + extended else end;
    piece := content[start..stop];
    left := extended - (end + 1 - start);
    if end == |content| {
      SegmentStep(content, start, length, end, stop, left, end);
      next, more := end, false;
      return;
    }
    var close := ScanTo(content, end + 1, '>');
    SegmentStep(content, start, length, end, stop, left, close);
    next := close + 1;
    more := close < |content| && left > 0;
  }

  /**
   * Writes `content` as `output_html_content` does, appending to the text
   * already written to `output`. The C code marks the ends of what it writes
   * by storing NULs into the buffer; here the same places are the indices
   * `end` and `start + length` into the unchanged text.
   */
  method OutputHtmlContent(output: seq<char>, content: CStr, shorten: bool) returns (out: seq<char>)
    ensures out == output + HtmlRender(content, shorten)
  {
    ghost var final := output + HtmlRender(content, shorten);
    var length: int := PlainText.TeaserBudget;
    if !shorten {
      length := |content|;
    }
    var start := 0;
    out := output;
    // What is still to be written from `start` on.
    ghost var todo := if length > 0 then HtmlChars(content, start, length, false) else [];
    while start < |content| && length > 0
      invariant start <= |content|
      invariant todo == if length > 0 then HtmlChars(content, start, length, false) else []
      invariant out + todo == final
      decreases |content| - start
    {
      var piece, next, left, more := SegmentPass(content, start, length);
      ghost var written := out;
      todo := if more then HtmlChars(content, next, left, false) else [];
      out := out + piece;
      AppendAssoc(written, piece, todo);
      if !more {
        break;
      }
      start, length := next, left;
    }
    assert todo == [];
    AppendEmpty(out);
  }

  /** With a budget that covers the rest of the text, nothing is cut. */
  lemma {:induction false} FullHtmlChars(s: seq<char>, i: nat, budget: int, inTag: bool)
    requires i <= |s| && budget >= |s| - i
    ensures HtmlChars(s, i, budget, inTag) == StripFrom(s, i, inTag)
    decreases |s| - i
  {
    if i < |s| {
      if inTag {
        FullHtmlChars(s, i + 1, budget, s[i] != '>');
      } else if s[i] == '<' {
        FullHtmlChars(s, i + 1, budget - 1, true);
      } else {
        FullHtmlChars(s, i + 1, budget - 1, false);
      }
    }
  }

  /**
   * Without shortening the renderer writes exactly the tag-stripped text:
   * the budget (the text's length) is never spent early.
   */
  lemma FullHtmlIsStripTags(s: CStr)
    ensures HtmlRender(s, false) == StripTags(s)
  {
    FullHtmlChars(s, 0, |s|, false);
  }

  /** `a` is a prefix of `b`. */
  predicate IsPrefix(a: seq<char>, b: seq<char>) {
    |a| <= |b| && a == b[..|a|]
  }

  /** Writing one more byte in front keeps a prefix a prefix. */
  lemma ConsPrefix(c: char, a: seq<char>, b: seq<char>)
    requires IsPrefix(a, b)
    ensures IsPrefix([c] + a, [c] + b)
  {
    assert ([c] + b)[..|[c] + a|] == [c] + b[..|a|];
  }

  lemma {:induction false} TeaserCharsIsPrefix(s: seq<char>, i: nat, budget: int, inTag: bool)
    requires i <= |s|
    ensures IsPrefix(HtmlChars(s, i, budget, inTag), StripFrom(s, i, inTag))
    decreases |s| - i
  {
    if i < |s| {
      if inTag {
        TeaserCharsIsPrefix(s, i + 1, budget, s[i] != '>');
      } else if s[i] == '<' {
        TeaserCharsIsPrefix(s, i + 1, budget - 1, true);
      } else if budget > 0 {
        TeaserCharsIsPrefix(s, i + 1, budget - 1, false);
        ConsPrefix(s[i], HtmlChars(s, i + 1, budget - 1, false), StripFrom(s, i + 1, false));
      } else if s[i] != ' ' {
        TeaserCharsIsPrefix(s, i + 1, budget, false);
        ConsPrefix(s[i], HtmlChars(s, i + 1, budget, false), StripFrom(s, i + 1, false));
      }
    }
  }

  /** A teaser is a prefix of the full tag-stripped text: shortening only cuts. */
  lemma TeaserIsPrefixOfStripped(s: CStr)
    ensures IsPrefix(HtmlRender(s, true), StripTags(s))
  {
    TeaserCharsIsPrefix(s, 0, PlainText.TeaserBudget, false);
  }

  /** `t` holds no `<`. */
  predicate NoOpenAngle(t: seq<char>) {
    forall i :: 0 <= i < |t| ==> t[i] != '<'
  }

  /** Writing a byte other than `<` in front keeps a text free of `<`. */
  lemma ConsNoOpenAngle(c: char, t: seq<char>)
    requires c != '<' && NoOpenAngle(t)
    ensures NoOpenAngle([c] + t)
  {
    forall i | 0 <= i < |[c] + t|
      ensures ([c] + t)[i] != '<'
    {
      if i > 0 {
        assert ([c] + t)[i] == t[i - 1];
      }
    }
  }

  lemma {:induction false} HtmlCharsHasNoOpenAngle(s: seq<char>, i: nat, budget: int, inTag: bool)
    requires i <= |s|
    ensures NoOpenAngle(HtmlChars(s, i, budget, inTag))
    decreases |s| - i
  {
    if i < |s| {
      if inTag {
        HtmlCharsHasNoOpenAngle(s, i + 1, budget, s[i] != '>');
      } else if s[i] == '<' {
        HtmlCharsHasNoOpenAngle(s, i + 1, budget - 1, true);
      } else if budget > 0 {
        HtmlCharsHasNoOpenAngle(s, i + 1, budget - 1, false);
        ConsNoOpenAngle(s[i], HtmlChars(s, i + 1, budget - 1, false));
      } else if s[i] != ' ' {
        HtmlCharsHasNoOpenAngle(s, i + 1, budget, false);
        ConsNoOpenAngle(s[i], HtmlChars(s, i + 1, budget, false));
      }
    }
  }

  /** HTML-mode output never opens a tag: every `<` of the input is dropped. */
  lemma HtmlRenderHasNoOpenAngle(s: CStr, shorten: bool)
    ensures '<' !in HtmlRender(s, shorten)
  {
    HtmlCharsHasNoOpenAngle(s, 0, InitialBudget(s, shorten), false);
  }

  /**
   * On text without tags both renderers consume the same bytes: the HTML
   * renderer's cut (first space at or after 100) is the plain renderer's.
   */
  lemma TagFreeHtmlMatchesPlainCut(s: CStr, shorten: bool)
    requires '<' !in s
    ensures HtmlRender(s, shorten) == s[..PlainText.PlainCut(s, shorten)]
  {
    var n := PlainText.PlainCut(s, shorten);
    if shorten && |s| > PlainText.TeaserBudget {
      TextRun(s, 0, PlainText.TeaserBudget, PlainText.TeaserBudget);
      CutRun(s, PlainText.TeaserBudget, n, 0);
      assert HtmlChars(s, n, 0, false) == [];
      assert s[..PlainText.TeaserBudget] + s[PlainText.TeaserBudget..n] == s[..n];
    } else {
      TextRun(s, 0, |s|, InitialBudget(s, shorten));
    }
  }

  /** `t` followed by the rest of the output, unless the rest overran. */
  function Prefixed(t: seq<char>, r: Option<seq<char>>): Option<seq<char>> {
    if r.None? then None else Some(t + r.value)
  }

  /**
   * `output_html_content` as written, step for step, over the buffer that
   * holds `s` and its terminator (indices `0..|s|`). `None` means the code
   * reads the byte after the terminator: after a last segment with no `<`
   * (`*end++ = 0` steps past the terminator and the tag scan reads on), or
   * after a `<` with no `>` (the loop test reads one past the terminator).
   */
  function HtmlAsWrittenFrom(s: seq<char>, pos: nat, budget: int): Option<seq<char>>
    requires pos <= |s| + 1
    decreases |s| + 1 - pos
  {
    if pos > |s| then None
    else if pos == |s| || budget <= 0 then Some([])
    else
      var p := FindFrom(s, pos, '<');
      var stop := if p - pos >= budget then WordEnd(s, pos + budget, p) else p;
      var left := (if p - pos >= budget then stop - pos else budget) - (p + 1 - pos);
      if p == |s| then None
      else Prefixed(s[pos..stop], HtmlAsWrittenFrom(s, FindFrom(s, p + 1, '>') + 1, left))
  }

  /** What `output_html_content` as written writes for `s`, or `None` where it overruns. */
  function HtmlAsWritten(s: CStr, shorten: bool): Option<seq<char>> {
    HtmlAsWrittenFrom(s, 0, InitialBudget(s, shorten))
  }

  /** One step of `HtmlAsWrittenFrom` that did not overrun, with the scanned positions named. */
  lemma AsWrittenStep(s: seq<char>, pos: nat, budget: int, p: nat, stop: nat, left: int, q: nat)
    requires pos < |s| && budget > 0
    requires p == FindFrom(s, pos, '<')
    requires stop == if p - pos >= budget then WordEnd(s, pos + budget, p) else p
    requires left == (if p - pos >= budget then stop - pos else budget) - (p + 1 - pos)
    requires p < |s| ==> q == FindFrom(s, p + 1, '>')
    requires HtmlAsWrittenFrom(s, pos, budget).Some?
    ensures p < |s| && q + 1 <= |s| + 1
    ensures HtmlAsWrittenFrom(s, q + 1, left).Some?
    ensures HtmlAsWrittenFrom(s, pos, budget).value == s[pos..stop] + HtmlAsWrittenFrom(s, q + 1, left).value
  {
  }

  lemma {:induction false} HtmlAsWrittenFromAgrees(s: seq<char>, pos: nat, budget: int)
    requires pos <= |s| && budget > 0
    requires HtmlAsWrittenFrom(s, pos, budget).Some?
    ensures HtmlAsWrittenFrom(s, pos, budget).value == HtmlChars(s, pos, budget, false)
    decreases |s| - pos
  {
    if pos == |s| {
      assert HtmlChars(s, pos, budget, false) == [];
    } else {
      var p := FindFrom(s, pos, '<');
      var stop := if p - pos >= budget then WordEnd(s, pos + budget, p) else p;
      var left := (if p - pos >= budget then stop - pos else budget) - (p + 1 - pos);
      var q := if p < |s| then FindFrom(s, p + 1, '>') else 0;
      AsWrittenStep(s, pos, budget, p, stop, left, q);
      var rest := HtmlAsWrittenFrom(s, q + 1, left).value;
      if p - pos < budget && left > 0 && q < |s| {
        HtmlAsWrittenFromAgrees(s, q + 1, left);
      } else {
        // The cut, a spent budget or an unclosed tag: nothing more is written.
        assert rest == [];
      }
      SegmentStep(s, pos, budget, p, stop, left, q);
    }
  }

  lemma HtmlAsWrittenAgrees(s: CStr, shorten: bool)
    ensures HtmlAsWritten(s, shorten).Some? ==> HtmlAsWritten(s, shorten).value == HtmlRender(s, shorten)
  {
    if HtmlAsWritten(s, shorten).Some? && InitialBudget(s, shorten) > 0 {
      HtmlAsWrittenFromAgrees(s, 0, InitialBudget(s, shorten));
    }
  }

  /** Any non-empty text without tags makes the code as written overrun its buffer. */
  lemma TagFreeTextOverruns(s: CStr, shorten: bool)
    requires |s| > 0 && '<' !in s
    ensures HtmlAsWritten(s, shorten).None?
  {
    FindFromFirst(s, 0, '<', |s|);
  }

  /**
   * `"a<b>c</b>d"`: the model writes `"acd"`; the code as written overruns
   * after the final `d`.
   */
  lemma TrailingTextRenders()
    ensures HtmlRender("a<b>c</b>d", false) == "acd"
  {
  }

  lemma TrailingTextOverruns()
    ensures HtmlAsWritten("a<b>c</b>d", false).None?
  {
    var s: CStr := "a<b>c</b>d";
    FindFromFirst(s, 0, '<', 1);
    FindFromFirst(s, 2, '>', 3);
    FindFromFirst(s, 4, '<', 5);
    FindFromFirst(s, 6, '>', 8);
    FindFromFirst(s, 9, '<', 10);
    assert HtmlAsWrittenFrom(s, 9, 6).None?;
    assert HtmlAsWrittenFrom(s, 4, 8).None?;
  }
}
