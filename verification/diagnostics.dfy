/**
 * The diagnostic normaliser: turns a PowerShell CLIXML error stream into
 * readable text (`_clean_error_msg`), after removing default-namespace
 * declarations from the markup (`_strip_namespace`).
 *
 * The XML parser is an oracle: `ET.fromstring(xml).findall("./S")` followed
 * by reading each element's `.text` is summarised as a `ParseResult`.
 */
module Diagnostics {
  import opened Wrappers
  import opened Text

  /**
   * What the parser makes of the markup: either it raises, or it yields the
   * texts of the root's direct `S` children in document order, where `None`
   * stands for an element without text (whose `.text` is Python's `None`).
   */
  datatype ParseResult = Malformed | Parsed(sTexts: seq<Option<string>>)

  /** The parser is deterministic: the same markup always gives the same result. */
  type XmlReader = string -> ParseResult

  /** The first line of a CLIXML error stream. */
  const ClixmlMarker: string := "#< CLIXML\r\n"

  /** The escape PowerShell writes for a CR LF line break inside a CLIXML string. */
  const CrLfEscape: string := "_x000D__x000A_"

  // ---------------------------------------------------------------------
  // _strip_namespace: the pattern `xmlns=*"[^"]*"`
  // ---------------------------------------------------------------------

  /** A whole match of `xmlns=*"[^"]*"`: the keyword, some `=`, then one quoted run without quotes. */
  predicate IsNamespaceDecl(t: string) {
    && |t| >= 7
    && t[..5] == "xmlns"
    && t[|t| - 1] == '"'
    && exists q :: 5 <= q < |t| - 1 && QuoteOpensAt(t, q)
  }

  /** In a candidate match `t`, position `q` holds the opening quote. */
  predicate QuoteOpensAt(t: string, q: int)
    requires 5 <= q < |t|
  {
    && (forall k :: 5 <= k < q ==> t[k] == '=')
    && t[q] == '"'
    && (forall k :: q < k < |t| - 1 ==> t[k] != '"')
  }

  /** The first index at or after `i` that does not hold `=`. */
  function SkipEquals(s: string, i: nat): (j: nat)
    requires i <= |s|
    ensures i <= j <= |s|
    ensures forall k :: i <= k < j ==> s[k] == '='
    ensures j < |s| ==> s[j] != '='
    decreases |s| - i
  {
    if i < |s| && s[i] == '=' then SkipEquals(s, i + 1) else i
  }

  /** The first index at or after `i` that holds a quote, if any. */
  function NextQuote(s: string, i: nat): (r: Option<nat>)
    requires i <= |s|
    ensures r.Some? ==> i <= r.value < |s| && s[r.value] == '"'
    ensures r.Some? ==> forall k :: i <= k < r.value ==> s[k] != '"'
    ensures r.None? ==> forall k :: i <= k < |s| ==> s[k] != '"'
    decreases |s| - i
  {
    if i == |s| then None
    else if s[i] == '"' then Some(i)
    else NextQuote(s, i + 1)
  }

  /** The end of the match of the pattern that starts at `p`, if the pattern matches there. */
  function MatchEnd(s: string, p: nat): (r: Option<nat>)
    requires p <= |s|
    ensures r.Some? ==> p < r.value <= |s| && IsNamespaceDecl(s[p..r.value])
  {
    if p + 5 <= |s| && s[p..p + 5] == "xmlns" then
      var q := SkipEquals(s, p + 5);
      if q < |s| && s[q] == '"' then
        match NextQuote(s, q + 1)
        case None => None
        case Some(e) =>
          assert QuoteOpensAt(s[p..e + 1], q - p);
          Some(e + 1)
      else None
    else None
  }

  /** `re.finditer(pattern, s)` from position `p`: the matched texts, left to right, never overlapping. */
  function FindAll(s: string, p: nat): (ms: seq<string>)
    requires p <= |s|
    ensures forall i :: 0 <= i < |ms| ==> IsNamespaceDecl(ms[i])
    decreases |s| - p
  {
    if p == |s| then []
    else
      match MatchEnd(s, p)
      case Some(e) => [s[p..e]] + FindAll(s, e)
      case None => FindAll(s, p + 1)
  }

  /** Every match begins with the keyword, so text without `xmlns` from `p` on has no match there. */
  lemma {:induction false} FindAllNeedsKeyword(s: string, p: nat)
    requires p <= |s|
    ensures !Contains(s, "xmlns") ==> FindAll(s, p) == []
    decreases |s| - p
  {
    if p < |s| {
      if p + 5 <= |s| && s[p..p + 5] == "xmlns" {
        assert OccursAt(s, "xmlns", p);
      }
      FindAllNeedsKeyword(s, p + 1);
    }
  }

  /** `for m in matches: xml = xml.replace(m, "")` */
  function RemoveEach(xml: string, ms: seq<string>): (r: string)
    requires forall i :: 0 <= i < |ms| ==> |ms[i]| > 0
    ensures |r| <= |xml|
    decreases |ms|
  {
    if |ms| == 0 then xml
    else
      ReplaceByEmptyShrinks(xml, ms[0]);
      RemoveEach(Replace(xml, ms[0], ""), ms[1..])
  }

  /**
   * `_strip_namespace(xml)`: every text the pattern matches in the original
   * markup is deleted, everywhere it occurs. Never lengthens the markup, and
   * leaves markup without the keyword `xmlns` as it is.
   */
  function StripNamespace(xml: string): (r: string)
    ensures |r| <= |xml|
    ensures !Contains(xml, "xmlns") ==> r == xml
  {
    FindAllNeedsKeyword(xml, 0);
    RemoveEach(xml, FindAll(xml, 0))
  }

  /**
   * The pattern matches at `p` exactly when some text starting at `p` is a
   * declaration, and then it ends where that declaration ends: a
   * declaration is never missed, and never cut short or run on.
   */
  lemma MatchEndFinds(s: string, p: nat, e: nat)
    requires p < e <= |s|
    ensures IsNamespaceDecl(s[p..e]) <==> MatchEnd(s, p) == Some(e)
  {
    var t := s[p..e];
    if IsNamespaceDecl(t) {
      var q' :| 5 <= q' < |t| - 1 && QuoteOpensAt(t, q');
      assert s[p..p + 5] == t[..5];
      var q := SkipEquals(s, p + 5);
      assert forall k :: p + 5 <= k < p + q' ==> s[k] == t[k - p] == '=';
      assert s[p + q'] == t[q'] == '"';
      assert q == p + q';
      assert forall k :: q + 1 <= k < e - 1 ==> s[k] == t[k - p] != '"';
      assert s[e - 1] == t[|t| - 1] == '"';
      assert NextQuote(s, q + 1) == Some(e - 1);
    }
  }

  /** The pattern can only match where the keyword starts. */
  lemma MatchEndNeedsKeyword(s: string, p: nat)
    requires p <= |s|
    ensures MatchEnd(s, p).Some? ==> OccursAt(s, "xmlns", p)
  {
  }

  /** The scan finds nothing from `p` on exactly when the pattern matches at no position from `p` on. */
  lemma {:induction false} FindAllEmpty(s: string, p: nat)
    requires p <= |s|
    ensures FindAll(s, p) == [] <==> forall j :: p <= j < |s| ==> MatchEnd(s, j).None?
    decreases |s| - p
  {
    if p < |s| {
      FindAllEmpty(s, p + 1);
    }
  }

  /**
   * The first match the scan reports is the leftmost one: when `j` is the
   * first position from `p` on where the pattern matches, the scan reports
   * that match and resumes right after it.
   */
  lemma {:induction false} FindAllLeftmost(s: string, p: nat, j: nat, e: nat)
    requires p <= j < |s|
    requires MatchEnd(s, j) == Some(e)
    requires forall i :: p <= i < j ==> MatchEnd(s, i).None?
    ensures FindAll(s, p) == [s[j..e]] + FindAll(s, e)
    decreases j - p
  {
    if p < j {
      FindAllLeftmost(s, p + 1, j, e);
    }
  }

  /** In `a + d + b`, where `d` starts with the keyword and `a` does not hold it, the keyword starts nowhere inside `a`. */
  lemma KeywordNotInPrefix(a: string, d: string, b: string)
    requires |d| >= 5 && d[..5] == "xmlns"
    requires !Contains(a, "xmlns")
    ensures forall i :: 0 <= i < |a| ==> !OccursAt(a + d + b, "xmlns", i)
  {
    var s := a + d + b;
    forall i | 0 <= i < |a|
      ensures !OccursAt(s, "xmlns", i)
    {
      if i + 5 <= |a| {
        assert s[i..i + 5] == a[i..i + 5];
        assert !OccursAt(a, "xmlns", i);
      } else if i + 5 <= |s| {
        assert s[i..i + 5][|a| - i] == s[|a|] == d[..5][0];
      }
    }
  }

  /** In `a + d + b`, the keyword starts nowhere inside `b` when `b` does not hold it. */
  lemma KeywordNotInSuffix(a: string, d: string, b: string)
    requires !Contains(b, "xmlns")
    ensures forall j :: |a| + |d| <= j < |a + d + b| ==> !OccursAt(a + d + b, "xmlns", j)
  {
    var s := a + d + b;
    var x := |a| + |d|;
    forall j | x <= j < |s|
      ensures !OccursAt(s, "xmlns", j)
    {
      if j + 5 <= |s| {
        assert s[j..j + 5] == b[j - x..j - x + 5];
        assert !OccursAt(b, "xmlns", j - x);
      }
    }
  }

  /** In markup that holds one declaration and the keyword nowhere else, that declaration is the only match. */
  lemma DeclarationIsOnlyMatch(a: string, d: string, b: string)
    requires IsNamespaceDecl(d)
    requires !Contains(a, "xmlns") && !Contains(b, "xmlns")
    ensures FindAll(a + d + b, 0) == [d]
  {
    var s := a + d + b;
    var x := |a| + |d|;
    KeywordNotInPrefix(a, d, b);
    KeywordNotInSuffix(a, d, b);
    forall i | 0 <= i < |a|
      ensures MatchEnd(s, i).None?
    {
      MatchEndNeedsKeyword(s, i);
    }
    assert s[|a|..x] == d;
    MatchEndFinds(s, |a|, x);
    FindAllLeftmost(s, 0, |a|, x);
    forall j | x <= j < |s|
      ensures MatchEnd(s, j).None?
    {
      MatchEndNeedsKeyword(s, j);
    }
    FindAllEmpty(s, x);
  }

  /** Deleting the one declaration from such markup leaves the text on either side of it. */
  lemma DeclarationDeleted(a: string, d: string, b: string)
    requires IsNamespaceDecl(d)
    requires !Contains(a, "xmlns") && !Contains(b, "xmlns")
    ensures Replace(a + d + b, d, "") == a + b
  {
    var s := a + d + b;
    assert s == a + (d + b);
    assert d[..5] == "xmlns";
    KeywordNotInPrefix(a, d, b);
    forall i | 0 <= i < |a|
      ensures !OccursAt(a + (d + b), d, i)
    {
      if i + |d| <= |s| {
        assert s[i..i + 5] == s[i..i + |d|][..5];
        assert !OccursAt(s, "xmlns", i);
      }
    }
    ReplaceSkipsPrefix(a, d + b, d, "");
    assert (d + b)[..|d|] == d && (d + b)[|d|..] == b;
    assert Replace(d + b, d, "") == Replace(b, d, "");
    if Contains(b, d) {
      ContainsPrefix(b, d, 5);
    }
    ReplaceAbsent(b, d, "");
  }

  /**
   * `_strip_namespace` removes a declaration: markup that holds one
   * declaration `d`, and the keyword `xmlns` nowhere else, comes back with
   * exactly `d` cut out.
   */
  lemma StripSingleDeclaration(a: string, d: string, b: string)
    requires IsNamespaceDecl(d)
    requires !Contains(a, "xmlns") && !Contains(b, "xmlns")
    ensures StripNamespace(a + d + b) == a + b
  {
    DeclarationIsOnlyMatch(a, d, b);
    DeclarationDeleted(a, d, b);
    assert RemoveEach(Replace(a + d + b, d, ""), [d][1..]) == a + b;
  }

  /** `<Objs xmlns="u"/>` splits into plain text, one declaration and plain text. */
  lemma ExampleLayout(xml: string, a: string, d: string, b: string)
    requires xml == "<Objs xmlns=\"u\"/>"
    requires a == "<Objs " && d == "xmlns=\"u\"" && b == "/>"
    ensures xml == a + d + b
    ensures IsNamespaceDecl(d) && !Contains(a, "xmlns") && !Contains(b, "xmlns")
  {
    assert QuoteOpensAt(d, 6);
    NoKeywordWithoutX(a);
    NoKeywordWithoutX(b);
  }

  /** `<Objs xmlns="u"/>` loses its declaration and keeps everything else. */
  lemma StripNamespaceExample(xml: string)
    requires xml == "<Objs xmlns=\"u\"/>"
    ensures StripNamespace(xml) == "<Objs />"
  {
    var a, d, b := "<Objs ", "xmlns=\"u\"", "/>";
    ExampleLayout(xml, a, d, b);
    StripSingleDeclaration(a, d, b);
  }

  /** Text without the letter `x` cannot hold the keyword. */
  lemma NoKeywordWithoutX(s: string)
    requires forall i :: 0 <= i < |s| ==> s[i] != 'x'
    ensures !Contains(s, "xmlns")
  {
    forall i | 0 <= i <= |s| - 5
      ensures !OccursAt(s, "xmlns", i)
    {
      assert s[i..i + 5][0] == s[i];
    }
  }

  // ---------------------------------------------------------------------
  // _clean_error_msg
  // ---------------------------------------------------------------------

  /**
   * The loop that builds `new_msg`: each `S` text with every CR LF escape
   * turned into a newline, concatenated in order; `None` when an element
   * has no text, where Python's `.replace` on `None` raises.
   */
  function JoinTexts(texts: seq<Option<string>>): (r: Option<string>)
    ensures r.None? <==> exists i :: 0 <= i < |texts| && texts[i].None?
    decreases |texts|
  {
    if |texts| == 0 then Some([])
    else
      match texts[0]
      case None => None
      case Some(t) =>
        match JoinTexts(texts[1..])
        case None =>
          assert forall i :: 1 <= i < |texts| ==> texts[1..][i - 1] == texts[i];
          None
        case Some(rest) =>
          assert forall i :: 1 <= i < |texts| ==> texts[1..][i - 1] == texts[i];
          Some(Replace(t, CrLfEscape, "\n") + rest)
  }

  /** One `S` text on its own: its CR LF escapes turned into newlines. */
  lemma JoinTextsSingle(t: string)
    ensures JoinTexts([Some(t)]) == Some(Replace(t, CrLfEscape, "\n"))
  {
    var texts := [Some(t)];
    var r := Replace(t, CrLfEscape, "\n");
    assert texts[1..] == [];
    assert JoinTexts(texts) == Some(r + []);
    assert r + [] == r;
  }

  /**
   * Joining is in document order and element by element: the texts of `a`
   * followed by those of `b` join to the join of `a` followed by the join of
   * `b`, and fail when either part fails.
   */
  lemma {:induction false} JoinTextsAppend(a: seq<Option<string>>, b: seq<Option<string>>)
    ensures JoinTexts(a + b)
      == if JoinTexts(a).Some? && JoinTexts(b).Some? then Some(JoinTexts(a).value + JoinTexts(b).value) else None
    decreases |a|
  {
    if |a| == 0 {
      assert a + b == b;
      if JoinTexts(b).Some? {
        assert [] + JoinTexts(b).value == JoinTexts(b).value;
      }
    } else {
      assert (a + b)[0] == a[0];
      assert (a + b)[1..] == a[1..] + b;
      JoinTextsAppend(a[1..], b);
      match a[0]
      case None =>
      case Some(t) =>
        var head := Replace(t, CrLfEscape, "\n");
        if JoinTexts(a[1..]).Some? && JoinTexts(b).Some? {
          var x, y := JoinTexts(a[1..]).value, JoinTexts(b).value;
          assert head + (x + y) == (head + x) + y;
        }
    }
  }

  /** `_clean_error_msg(msg)` */
  function CleanErrorMsg(msg: string, read: XmlReader): string {
    if IsPrefix(ClixmlMarker, msg) then
      match read(StripNamespace(msg[11..]))
      case Malformed => msg
      case Parsed(texts) =>
        match JoinTexts(texts)
        case None => msg
        case Some(joined) => if |joined| > 0 then Strip(joined) else msg
    else msg
  }

  /** The text the normaliser would produce from `msg`, when the markup yields any. */
  function Extracted(msg: string, read: XmlReader): Option<string>
    requires IsPrefix(ClixmlMarker, msg)
  {
    match read(StripNamespace(msg[11..]))
    case Malformed => None
    case Parsed(texts) => JoinTexts(texts)
  }

  /**
   * The message comes back unchanged when it lacks the marker, the
   * markup does not parse, an `S` element has no text, or the joined text is
   * empty; otherwise it is the joined text, stripped.
   */
  lemma CleanErrorMsgCases(msg: string, read: XmlReader)
    ensures !IsPrefix(ClixmlMarker, msg) ==> CleanErrorMsg(msg, read) == msg
    ensures IsPrefix(ClixmlMarker, msg) && Extracted(msg, read).None? ==> CleanErrorMsg(msg, read) == msg
    ensures IsPrefix(ClixmlMarker, msg) && Extracted(msg, read) == Some([]) ==> CleanErrorMsg(msg, read) == msg
    ensures IsPrefix(ClixmlMarker, msg) && Extracted(msg, read).Some? && |Extracted(msg, read).value| > 0 ==>
              CleanErrorMsg(msg, read) == Strip(Extracted(msg, read).value)
  {
  }

  /** Whenever the normaliser does replace the message, the result has no surrounding whitespace. */
  lemma CleanedHasNoEdgeSpaces(msg: string, read: XmlReader)
    requires CleanErrorMsg(msg, read) != msg
    ensures var r := CleanErrorMsg(msg, read); |r| > 0 ==> !IsSpace(r[0]) && !IsSpace(r[|r| - 1])
  {
  }

  /**
   * A CLIXML stream whose `S` texts are all whitespace is reduced to the
   * empty string: the error text disappears altogether.
   */
  lemma BlankDiagnosticVanishes(msg: string, read: XmlReader, blank: string)
    requires IsPrefix(ClixmlMarker, msg)
    requires read(StripNamespace(msg[11..])) == Parsed([Some(blank)])
    requires |blank| > 0 && forall i :: 0 <= i < |blank| ==> IsSpace(blank[i])
    ensures CleanErrorMsg(msg, read) == []
  {
    assert !Contains(blank, CrLfEscape) by {
      forall i | 0 <= i <= |blank| - |CrLfEscape|
        ensures !OccursAt(blank, CrLfEscape, i)
      {
        assert blank[i..i + |CrLfEscape|][0] == blank[i];
      }
    }
    ReplaceAbsent(blank, CrLfEscape, "\n");
    var texts := [Some(blank)];
    assert texts[1..] == [];
    assert JoinTexts(texts) == Some(blank + []);
    assert LeadingSpaces(blank) == |blank|;
  }

  /** A marked message whose markup holds one `S` element with text. */
  lemma CleanSingleText(body: string, text: string, read: XmlReader)
    requires read(StripNamespace(body)) == Parsed([Some(text)])
    requires |Replace(text, CrLfEscape, "\n")| > 0
    ensures CleanErrorMsg(ClixmlMarker + body, read) == Strip(Replace(text, CrLfEscape, "\n"))
  {
    var msg := ClixmlMarker + body;
    assert IsPrefix(ClixmlMarker, msg) && msg[11..] == body;
    var texts := [Some(text)];
    assert texts[1..] == [];
    assert JoinTexts(texts) == Some(Replace(text, CrLfEscape, "\n") + []);
    assert Replace(text, CrLfEscape, "\n") + [] == Replace(text, CrLfEscape, "\n");
  }

  /**
   * A marked message whose markup holds two `S` elements with text: their
   * texts, each with its own escapes replaced, joined in document order and
   * then stripped.
   */
  lemma CleanTwoTexts(body: string, first: string, second: string, read: XmlReader)
    requires read(StripNamespace(body)) == Parsed([Some(first), Some(second)])
    requires |Replace(first, CrLfEscape, "\n") + Replace(second, CrLfEscape, "\n")| > 0
    ensures CleanErrorMsg(ClixmlMarker + body, read)
      == Strip(Replace(first, CrLfEscape, "\n") + Replace(second, CrLfEscape, "\n"))
  {
    var msg := ClixmlMarker + body;
    assert IsPrefix(ClixmlMarker, msg) && msg[11..] == body;
    JoinTextsSingle(first);
    JoinTextsSingle(second);
    JoinTextsAppend([Some(first)], [Some(second)]);
    assert [Some(first)] + [Some(second)] == [Some(first), Some(second)];
  }

  /** Two `S` texts, `"a "` then `" b"`, give `"a  b"`: the inner spaces stay and the order is kept. */
  lemma CleanTwoTextsExample(body: string, read: XmlReader)
    requires read(StripNamespace(body)) == Parsed([Some("a "), Some(" b")])
    ensures CleanErrorMsg(ClixmlMarker + body, read) == "a  b"
  {
    TwoTextsJoined("a ", " b");
    CleanTwoTexts(body, "a ", " b", read);
  }

  /** The two texts of `CleanTwoTextsExample`, joined in order and stripped. */
  lemma TwoTextsJoined(first: string, second: string)
    requires first == "a " && second == " b"
    ensures Strip(Replace(first, CrLfEscape, "\n") + Replace(second, CrLfEscape, "\n")) == "a  b"
  {
    ShortTextKept(first);
    ShortTextKept(second);
    var joined := first + second;
    assert joined == "a  b";
    StripKeepsInner(joined);
  }

  /**
   * An escape split across two `S` elements, `_x000D_` ending one and
   * `_x000A_` starting the next, is not replaced: the replacement is done
   * element by element, before the texts are joined.
   */
  lemma SplitEscapeKept(body: string, read: XmlReader)
    requires read(StripNamespace(body)) == Parsed([Some("x_x000D_"), Some("_x000A_y")])
    ensures CleanErrorMsg(ClixmlMarker + body, read) == "x_x000D__x000A_y"
  {
    SplitEscapeJoined("x_x000D_", "_x000A_y");
    CleanTwoTexts(body, "x_x000D_", "_x000A_y", read);
  }

  /** The two texts of `SplitEscapeKept`, each too short to hold the escape, joined and stripped. */
  lemma SplitEscapeJoined(first: string, second: string)
    requires first == "x_x000D_" && second == "_x000A_y"
    ensures Strip(Replace(first, CrLfEscape, "\n") + Replace(second, CrLfEscape, "\n")) == "x_x000D__x000A_y"
  {
    ShortTextKept(first);
    ShortTextKept(second);
    var joined := first + second;
    assert joined == "x_x000D__x000A_y";
    StripKeepsInner(joined);
  }

  /** A text shorter than the escape has none to replace. */
  lemma ShortTextKept(t: string)
    requires |t| < |CrLfEscape|
    ensures Replace(t, CrLfEscape, "\n") == t
  {
  }

  /** A text that neither starts nor ends with whitespace is its own strip. */
  lemma StripKeepsInner(t: string)
    requires |t| > 0 && !IsSpace(t[0]) && !IsSpace(t[|t| - 1])
    ensures Strip(t) == t
  {
  }

  lemma ExampleReplace()
    ensures Replace("Error" + CrLfEscape + "Continued", CrLfEscape, "\n") == "Error\nContinued"
  {
    ReplaceAfterPlain("Error", CrLfEscape, "\n", "Continued");
  }

  lemma ExampleStrip()
    ensures Strip("Error\nContinued") == "Error\nContinued"
  {
    StripKeepsInner("Error\nContinued");
  }

  /**
   * The worked example: for `"#< CLIXML\r\n" + body`, where the markup `body`
   * (such as `<Objs><S>Error_x000D__x000A_Continued</S></Objs>`) has one `S`
   * element whose text holds an escaped line break, the result is
   * `"Error\nContinued"`.
   */
  lemma CleanErrorMsgExample(body: string, read: XmlReader)
    requires read(StripNamespace(body)) == Parsed([Some("Error" + CrLfEscape + "Continued")])
    ensures CleanErrorMsg(ClixmlMarker + body, read) == "Error\nContinued"
  {
    ExampleReplace();
    ExampleStrip();
    CleanSingleText(body, "Error" + CrLfEscape + "Continued", read);
  }
}
