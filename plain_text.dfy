/**
 * Plain-mode body rendering (`output_plain_content`): the text is copied
 * with `<`, `>` and `&` turned into character references, and in teaser
 * mode it stops at the first space at or after input byte 100.
 */
module PlainText {
  import opened CStrings

  /** How many input bytes a teaser keeps before looking for a word end. */
  const TeaserBudget: nat := 100

  /** The reference written for one byte. */
  function Escape(c: char): seq<char> {
    if c == '<' then "&lt;"
    else if c == '>' then "&gt;"
    else if c == '&' then "&amp;"
    else [c]
  }

  /** Every byte of `s` escaped, in order. */
  function EscapeAll(s: seq<char>): seq<char> {
    if s == [] then [] else Escape(s[0]) + EscapeAll(s[1..])
  }

  /** Reads the three references back; every other byte stands for itself. */
  function Unescape(t: seq<char>): seq<char>
    decreases |t|
  {
    if t == [] then []
    else if |t| >= 4 && t[..4] == "&lt;" then ['<'] + Unescape(t[4..])
    else if |t| >= 4 && t[..4] == "&gt;" then ['>'] + Unescape(t[4..])
    else if |t| >= 5 && t[..5] == "&amp;" then ['&'] + Unescape(t[5..])
    else [t[0]] + Unescape(t[1..])
  }

  /**
   * The number of input bytes the plain renderer consumes. In full mode that
   * is everything; in teaser mode the first 100 bytes (spaces included) and
   * then everything up to, not including, the first space at index 100 or later.
   */
  function PlainCut(s: CStr, shorten: bool): (n: nat)
    ensures n <= |s|
    ensures !shorten ==> n == |s|
    ensures n >= |s| || n >= TeaserBudget
    ensures shorten ==> forall j :: TeaserBudget <= j < n ==> s[j] != ' '
    ensures n < |s| ==> s[n] == ' '
  {
    if !shorten || |s| <= TeaserBudget then |s|
    else
      FindFromSkips(s, TeaserBudget, ' ');
      FindFrom(s, TeaserBudget, ' ')
  }

  /** What `output_plain_content` writes for `s`. */
  function PlainRender(s: CStr, shorten: bool): seq<char> {
    EscapeAll(s[..PlainCut(s, shorten)])
  }

  lemma {:induction false} EscapeAllAppend(a: seq<char>, b: seq<char>)
    ensures EscapeAll(a + b) == EscapeAll(a) + EscapeAll(b)
    decreases |a|
  {
    if a == [] {
      assert a + b == b;
    } else {
      assert (a + b)[1..] == a[1..] + b;
      EscapeAllAppend(a[1..], b);
    }
  }

  /** Escaping one more byte of `s` appends that byte's reference. */
  lemma EscapeAllStep(s: seq<char>, i: nat)
    requires i < |s|
    ensures EscapeAll(s[..i + 1]) == EscapeAll(s[..i]) + Escape(s[i])
  {
    assert s[..i + 1] == s[..i] + [s[i]];
    EscapeAllAppend(s[..i], [s[i]]);
    assert EscapeAll([s[i]]) == Escape(s[i]) + EscapeAll([]);
    AppendEmpty(Escape(s[i]));
  }

  /**
   * Writes `content` as `output_plain_content` does, appending to the text
   * already written to `output`: the loop counts `length` down per input
   * byte, and once it is spent stops at the next space without writing it.
   */
  method OutputPlainContent(output: seq<char>, content: CStr, shorten: bool) returns (out: seq<char>)
    ensures out == output + PlainRender(content, shorten)
  {
    var length: int := TeaserBudget;
    if !shorten {
      length := |content|;
    }
    var start := length;
    out := output;
    var i := 0;
    while i < |content|
      invariant 0 <= i <= PlainCut(content, shorten)
      invariant length == start - i
      invariant start == if shorten then TeaserBudget else |content|
      invariant out == output + EscapeAll(content[..i])
    {
      var c := content[i];
      var inBudget := length > 0;
      length := length - 1;
      if !inBudget && c == ' ' {
        break;
      }
      ghost var written := out;
      // Quote HTML special characters.
      if c == '<' {
        out := out + "&lt;";
      } else if c == '>' {
        out := out + "&gt;";
      } else if c == '&' {
        out := out + "&amp;";
      } else {
        out := out + [c];
      }
      assert out == written + Escape(c);
      EscapeAllStep(content, i);
      AppendAssoc(output, EscapeAll(content[..i]), Escape(c));
      i := i + 1;
    }
    assert content[..i] == content[..PlainCut(content, shorten)];
  }

  /** The escaped text reads back as the text: nothing is lost or altered. */
  lemma {:induction false} UnescapeEscapeAll(s: seq<char>)
    ensures Unescape(EscapeAll(s)) == s
    decreases |s|
  {
    if s != [] {
      var c, rest := s[0], EscapeAll(s[1..]);
      var t := Escape(c) + rest;
      assert EscapeAll(s) == t;
      if c == '<' {
        assert t[..4] == "&lt;" && t[4..] == rest;
      } else if c == '>' {
        assert t[..4] == "&gt;" && t[4..] == rest;
      } else if c == '&' {
        assert t[..4][1] == 'a' && "&lt;"[1] == 'l' && "&gt;"[1] == 'g';
        assert t[..5] == "&amp;" && t[5..] == rest;
      } else {
        assert t[0] == c && t[1..] == rest;
        assert |t| >= 4 ==> t[..4][0] == c;
        assert |t| >= 5 ==> t[..5][0] == c;
      }
      UnescapeEscapeAll(s[1..]);
    }
  }

  /** Escaped text holds no `<` and no `>`: it cannot open or close a tag. */
  lemma {:induction false} EscapeAllHasNoAngleBrackets(s: seq<char>)
    ensures '<' !in EscapeAll(s) && '>' !in EscapeAll(s)
    decreases |s|
  {
    if s != [] {
      EscapeAllHasNoAngleBrackets(s[1..]);
    }
  }

  /**
   * The plain renderer's output decodes to exactly the bytes it consumed:
   * the whole text in full mode, the teaser prefix otherwise.
   */
  lemma PlainRenderRoundTrip(s: CStr, shorten: bool)
    ensures Unescape(PlainRender(s, shorten)) == s[..PlainCut(s, shorten)]
    ensures !shorten ==> Unescape(PlainRender(s, shorten)) == s
    ensures '<' !in PlainRender(s, shorten) && '>' !in PlainRender(s, shorten)
  {
    UnescapeEscapeAll(s[..PlainCut(s, shorten)]);
    EscapeAllHasNoAngleBrackets(s[..PlainCut(s, shorten)]);
    assert s[..|s|] == s;
  }
}
