/** The rule set of utils/globalFunction.js: each rule reads one file's text
    (and, for some rules, its parsed elements) and appends findings to the
    shared warnings list; beside them the offset-based line locator, the
    folder walk and the index.php rule. */
module GlobalFunction {
  import opened Text
  import opened Findings
  import opened FileSystem

  /** The values the rules read from the project's config module. */
  datatype Config = Config(
    ignoreFileFiles: seq<string>,
    globalProjectVariables: seq<string>,
    ignoreDirectories: seq<string>)

  /** A line holding this marker is exempt from the line-level rules. */
  const IgnoreMarker := "#evIgnore"

  // ---------------------------------------------------------------------
  // findLineNumber

  /** findLineNumber(searchString, content): -1 when the needle does not
      occur, otherwise the number of pieces that splitting the text before
      its first occurrence on "\n" gives. */
  function FindLineNumber(searchString: string, content: string): (r: int)
    ensures r == -1 <==> !Contains(content, searchString)
    ensures r != -1 ==> 1 <= r <= |Split(content)|
    ensures r != -1 ==> r == 1 + NLBefore(content, IndexOf(content, searchString, 0))
  {
    var index := IndexOf(content, searchString, 0);
    if index == -1 then -1
    else
      PrefixLines(content, index);
      |Split(content[..index])|
  }

  /** When the needle occurs, the line found is that of its first occurrence:
      it is the line of some occurrence, and no occurrence lies before it. */
  lemma FindLineNumberFirst(searchString: string, content: string, i: nat)
    requires OccursAt(content, searchString, i)
    ensures 1 <= FindLineNumber(searchString, content) <= LineAt(content, i)
    ensures exists j :: (0 <= j <= i && OccursAt(content, searchString, j)
      && FindLineNumber(searchString, content) == LineAt(content, j))
  {
    ContainsIff(content, searchString);
    FindFromFirst(content, searchString, 0);
    var j := IndexOf(content, searchString, 0);
    assert j != -1 && j <= i;
    LineAtMonotone(content, j, i);
  }

  // ---------------------------------------------------------------------
  // checkForMissingAltAttributes

  const NoSrc := "[no src]"

  /** $(el).attr("src") || "[no src]": a missing or empty src reads as the
      placeholder. */
  function Src(e: Element): (r: string)
    ensures r != ""
    ensures r == NoSrc <==> (Attr(e, "src") == None || Attr(e, "src") == Some("") || Attr(e, "src") == Some(NoSrc))
  {
    match Attr(e, "src")
    case Some(v) => if v == "" then NoSrc else v
    case None => NoSrc
  }

  /** !alt || alt.trim() === "" */
  predicate AltMissing(e: Element) {
    match Attr(e, "alt")
    case None => true
    case Some(v) => Trim(v) == []
  }

  /** The alt text is missing exactly when it is absent or only white space. */
  lemma AltMissingIff(e: Element)
    ensures AltMissing(e) <==> Attr(e, "alt") == None || AllSpace(Attr(e, "alt").value)
  {
    if Attr(e, "alt").Some? {
      TrimEmptyIff(Attr(e, "alt").value);
    }
  }

  /** The number of the first line holding the image's src, or -1 when the src
      is the placeholder or no line holds it. */
  function SrcLine(lines: seq<string>, e: Element): (r: int)
    ensures r == -1 || (1 <= r <= |lines| && Contains(lines[r - 1], Src(e)))
  {
    if Src(e) == NoSrc then -1 else FirstLineContaining(lines, Src(e))
  }

  /** The first line holding the src carries the ignore marker. */
  predicate SrcLineIgnored(lines: seq<string>, e: Element) {
    var n := SrcLine(lines, e);
    n != -1 && Contains(lines[n - 1], IgnoreMarker)
  }

  predicate UtilsAltFlagged(lines: seq<string>, e: Element) {
    !SrcLineIgnored(lines, e) && AltMissing(e)
  }

  function UtilsAltFinding(filePath: string, fileName: string, lines: seq<string>, e: Element): Finding {
    var n := SrcLine(lines, e);
    Finding(filePath, fileName, MissingAlt,
      "Image with src '" + Src(e) + "' is missing alt text.",
      if n != -1 then Line(n) else Null)
  }

  /** The findings the rule appends for the images of a page, in document order. */
  function UtilsAltFindings(filePath: string, fileName: string, lines: seq<string>, imgs: seq<Element>): seq<Finding> {
    KeepMap(imgs, e => UtilsAltFlagged(lines, e), e => UtilsAltFinding(filePath, fileName, lines, e))
  }

  /** One more image appends its finding exactly when it is flagged. */
  lemma UtilsAltStep(filePath: string, fileName: string, lines: seq<string>, imgs: seq<Element>, j: nat)
    requires j < |imgs|
    ensures UtilsAltFindings(filePath, fileName, lines, imgs[..j + 1])
      == UtilsAltFindings(filePath, fileName, lines, imgs[..j])
        + (if UtilsAltFlagged(lines, imgs[j]) then [UtilsAltFinding(filePath, fileName, lines, imgs[j])] else [])
  {
    assert imgs[..j + 1][..j] == imgs[..j];
  }

  /** A finding is appended exactly for each flagged image. */
  lemma UtilsAltExact(filePath: string, fileName: string, lines: seq<string>, imgs: seq<Element>)
    ensures forall f :: f in UtilsAltFindings(filePath, fileName, lines, imgs) <==>
      exists k :: 0 <= k < |imgs| && UtilsAltFlagged(lines, imgs[k]) && f == UtilsAltFinding(filePath, fileName, lines, imgs[k])
  {
    var keep := e => UtilsAltFlagged(lines, e);
    var f := e => UtilsAltFinding(filePath, fileName, lines, e);
    KeepMapSound(imgs, keep, f);
    KeepMapComplete(imgs, keep, f);
  }

  /** An image is flagged exactly when its alt is absent or only white space
      and the first line holding its src does not carry the ignore marker. */
  lemma UtilsAltFlaggedIff(lines: seq<string>, e: Element)
    ensures UtilsAltFlagged(lines, e) <==>
      (Attr(e, "alt") == None || AllSpace(Attr(e, "alt").value)) && !SrcLineIgnored(lines, e)
  {
    AltMissingIff(e);
  }

  /** Every finding is a missing-alt one naming the src, on a line of the page
      or on a null line. */
  lemma UtilsAltShape(filePath: string, fileName: string, lines: seq<string>, e: Element)
    ensures UtilsAltFinding(filePath, fileName, lines, e).kind == MissingAlt
    ensures UtilsAltFinding(filePath, fileName, lines, e).message == "Image with src '" + Src(e) + "' is missing alt text."
    ensures UtilsAltFinding(filePath, fileName, lines, e).lineNumber == Null ||
      (UtilsAltFinding(filePath, fileName, lines, e).lineNumber.Line? &&
       1 <= UtilsAltFinding(filePath, fileName, lines, e).lineNumber.n <= |lines|)
  {
  }

  /** An image whose src is missing, or held by no line, is reported with a
      null line; one whose src line is found is reported with that line. */
  lemma UtilsAltLine(filePath: string, fileName: string, lines: seq<string>, e: Element)
    ensures UtilsAltFinding(filePath, fileName, lines, e).lineNumber == Null <==>
      Src(e) == NoSrc || forall k :: 0 <= k < |lines| ==> !Contains(lines[k], Src(e))
  {
  }

  /** The inner loop of the rule: the first line holding src (-1 for none or
      for the placeholder), and whether that line carries the ignore marker. */
  method SearchSrcLine(lines: seq<string>, e: Element) returns (lineNumber: int, shouldIgnore: bool)
    ensures lineNumber == SrcLine(lines, e)
    ensures shouldIgnore == SrcLineIgnored(lines, e)
  {
    var src := Src(e);
    lineNumber := -1;
    shouldIgnore := false;
    var i := 0;
    while i < |lines|
      invariant 0 <= i <= |lines|
      invariant src != NoSrc ==> FirstLineFrom(lines, src, i) == FirstLineContaining(lines, src)
    {
      if src != NoSrc && Contains(lines[i], src) {
        lineNumber := i + 1;
        if Contains(lines[i], IgnoreMarker) {
          shouldIgnore := true;
        }
        break;
      }
      i := i + 1;
    }
  }

  /** The body of the rule's each callback for one image. */
  method VisitImage(el: Element, warnings: WarningList, filePath: string, fileName: string, lines: seq<string>)
    modifies warnings
    ensures warnings.items == old(warnings.items)
      + (if UtilsAltFlagged(lines, el) then [UtilsAltFinding(filePath, fileName, lines, el)] else [])
  {
    var alt := Attr(el, "alt");
    var src := Src(el);
    var lineNumber, shouldIgnore := SearchSrcLine(lines, el);
    if shouldIgnore {
      return;
    }
    if alt.None? || Trim(alt.value) == [] {
      warnings.Push(Finding(filePath, fileName, MissingAlt,
        "Image with src '" + src + "' is missing alt text.",
        if lineNumber != -1 then Line(lineNumber) else Null));
    }
  }

  /** checkForMissingAltAttributes($, warnings, filePath, fileName, content) */
  method CheckForMissingAltAttributes(doc: Document, warnings: WarningList, filePath: string, fileName: string, content: string)
    modifies warnings
    ensures warnings.items == old(warnings.items) + UtilsAltFindings(filePath, fileName, Split(content), Select(doc, "img"))
  {
    var lines := Split(content);
    var imgs := Select(doc, "img");
    for j := 0 to |imgs|
      invariant warnings.items == old(warnings.items) + UtilsAltFindings(filePath, fileName, lines, imgs[..j])
    {
      UtilsAltStep(filePath, fileName, lines, imgs, j);
      VisitImage(imgs[j], warnings, filePath, fileName, lines);
      AppendAssoc(old(warnings.items), UtilsAltFindings(filePath, fileName, lines, imgs[..j]),
        if UtilsAltFlagged(lines, imgs[j]) then [UtilsAltFinding(filePath, fileName, lines, imgs[j])] else []);
    }
    assert imgs[..|imgs|] == imgs;
  }

  // ---------------------------------------------------------------------
  // removeConsoleLogs

  predicate HasConsoleCall(line: string) {
    Contains(line, "console.log") || Contains(line, "console.error") || Contains(line, "console.warn")
  }

  predicate ConsoleFlagged(line: string) {
    HasConsoleCall(line) && !Contains(line, IgnoreMarker)
  }

  function ConsoleFinding(filePath: string, fileName: string, index: nat): Finding {
    Finding(filePath, fileName, ConsoleStatement,
      "Avoid using console statement at line " + NatToString(index + 1),
      Line(index + 1))
  }

  /** The findings for the first n lines, in line order. */
  function ConsoleFindings(filePath: string, fileName: string, lines: seq<string>, n: nat): (r: seq<Finding>)
    requires n <= |lines|
    ensures |r| <= n
  {
    if n == 0 then []
    else
      var init := ConsoleFindings(filePath, fileName, lines, n - 1);
      if ConsoleFlagged(lines[n - 1]) then init + [ConsoleFinding(filePath, fileName, n - 1)] else init
  }

  /** One more line appends its finding exactly when it is flagged. */
  lemma ConsoleStep(filePath: string, fileName: string, lines: seq<string>, index: nat)
    requires index < |lines|
    ensures ConsoleFindings(filePath, fileName, lines, index + 1)
      == ConsoleFindings(filePath, fileName, lines, index)
        + (if ConsoleFlagged(lines[index]) then [ConsoleFinding(filePath, fileName, index)] else [])
  {
  }

  /** Every finding for the first n lines names one of those lines. */
  lemma {:induction false} ConsoleBounds(filePath: string, fileName: string, lines: seq<string>, n: nat)
    requires n <= |lines|
    ensures forall j :: 0 <= j < |ConsoleFindings(filePath, fileName, lines, n)| ==>
      ConsoleFindings(filePath, fileName, lines, n)[j].lineNumber.Line? &&
      1 <= ConsoleFindings(filePath, fileName, lines, n)[j].lineNumber.n <= n
  {
    if n > 0 {
      ConsoleBounds(filePath, fileName, lines, n - 1);
      var init := ConsoleFindings(filePath, fileName, lines, n - 1);
      var r := ConsoleFindings(filePath, fileName, lines, n);
      forall j | 0 <= j < |r|
        ensures r[j].lineNumber.Line? && 1 <= r[j].lineNumber.n <= n
      {
        if j < |init| {
          assert r[j] == init[j];
        }
      }
    }
  }

  /** Every finding names a flagged line. */
  lemma {:induction false} ConsoleSound(filePath: string, fileName: string, lines: seq<string>, n: nat)
    requires n <= |lines|
    ensures forall f :: f in ConsoleFindings(filePath, fileName, lines, n) ==>
      exists i :: 0 <= i < n && ConsoleFlagged(lines[i]) && f == ConsoleFinding(filePath, fileName, i)
  {
    if n > 0 {
      ConsoleSound(filePath, fileName, lines, n - 1);
      forall f | f in ConsoleFindings(filePath, fileName, lines, n)
        ensures exists i :: 0 <= i < n && ConsoleFlagged(lines[i]) && f == ConsoleFinding(filePath, fileName, i)
      {
        if f !in ConsoleFindings(filePath, fileName, lines, n - 1) {
          assert ConsoleFlagged(lines[n - 1]) && f == ConsoleFinding(filePath, fileName, n - 1);
        }
      }
    }
  }

  /** Every flagged line has its finding. */
  lemma {:induction false} ConsoleComplete(filePath: string, fileName: string, lines: seq<string>, n: nat)
    requires n <= |lines|
    ensures forall i :: 0 <= i < n && ConsoleFlagged(lines[i]) ==>
      ConsoleFinding(filePath, fileName, i) in ConsoleFindings(filePath, fileName, lines, n)
  {
    if n > 0 {
      ConsoleComplete(filePath, fileName, lines, n - 1);
    }
  }

  /** One finding per flagged line and no other: its line number is the
      line's index plus one. */
  lemma ConsoleExact(filePath: string, fileName: string, lines: seq<string>, n: nat)
    requires n <= |lines|
    ensures forall f :: f in ConsoleFindings(filePath, fileName, lines, n) <==>
      exists i :: 0 <= i < n && ConsoleFlagged(lines[i]) && f == ConsoleFinding(filePath, fileName, i)
  {
    ConsoleSound(filePath, fileName, lines, n);
    ConsoleComplete(filePath, fileName, lines, n);
  }

  /** The findings come in strictly increasing line order. */
  lemma {:induction false} ConsoleOrdered(filePath: string, fileName: string, lines: seq<string>, n: nat)
    requires n <= |lines|
    ensures forall a, b :: 0 <= a < b < |ConsoleFindings(filePath, fileName, lines, n)| ==>
      && ConsoleFindings(filePath, fileName, lines, n)[a].lineNumber.Line?
      && ConsoleFindings(filePath, fileName, lines, n)[b].lineNumber.Line?
      && ConsoleFindings(filePath, fileName, lines, n)[a].lineNumber.n
        < ConsoleFindings(filePath, fileName, lines, n)[b].lineNumber.n
  {
    if n > 0 {
      ConsoleOrdered(filePath, fileName, lines, n - 1);
      ConsoleBounds(filePath, fileName, lines, n - 1);
      var init := ConsoleFindings(filePath, fileName, lines, n - 1);
      var r := ConsoleFindings(filePath, fileName, lines, n);
      if ConsoleFlagged(lines[n - 1]) {
        var last := ConsoleFinding(filePath, fileName, n - 1);
        assert r == init + [last];
        assert last.lineNumber.n == n;
        forall a, b | 0 <= a < b < |r|
          ensures r[a].lineNumber.Line? && r[b].lineNumber.Line? && r[a].lineNumber.n < r[b].lineNumber.n
        {
          assert r[a] == init[a];
          if b < |init| {
            assert r[b] == init[b];
          } else {
            assert r[b] == last;
            assert init[a].lineNumber.n <= n - 1;
          }
        }
      } else {
        assert r == init;
        forall a, b | 0 <= a < b < |r|
          ensures r[a].lineNumber.Line? && r[b].lineNumber.Line? && r[a].lineNumber.n < r[b].lineNumber.n
        {
          assert r[a] == init[a] && r[b] == init[b];
        }
      }
    } else {
      assert |ConsoleFindings(filePath, fileName, lines, n)| == 0;
    }
  }

  /** removeConsoleLogs(_, warnings, filePath, fileName, content) */
  method RemoveConsoleLogs(warnings: WarningList, filePath: string, fileName: string, content: string)
    modifies warnings
    ensures warnings.items == old(warnings.items) + ConsoleFindings(filePath, fileName, Split(content), |Split(content)|)
  {
    var lines := Split(content);
    for index := 0 to |lines|
      invariant warnings.items == old(warnings.items) + ConsoleFindings(filePath, fileName, lines, index)
    {
      var line := lines[index];
      ConsoleStep(filePath, fileName, lines, index);
      if Contains(line, "console.log") || Contains(line, "console.error") || Contains(line, "console.warn") {
        if !Contains(line, IgnoreMarker) {
          warnings.Push(Finding(filePath, fileName, ConsoleStatement,
            "Avoid using console statement at line " + NatToString(index + 1),
            Line(index + 1)));
        }
      }
    }
  }

  // ---------------------------------------------------------------------
  // checkForEmptyFiles

  function EmptyFileFindings(cfg: Config, filePath: string, fileName: string, content: string): (r: seq<Finding>)
    ensures |r| <= 1
    ensures |r| == 1 <==> fileName !in cfg.ignoreFileFiles && AllSpace(content)
    ensures |r| == 1 ==> (r[0].kind == EmptyFile && r[0].lineNumber == NotApplicable
      && r[0].filePath == filePath && r[0].fileName == fileName)
  {
    TrimEmptyIff(content);
    if fileName in cfg.ignoreFileFiles then []
    else if |Trim(content)| == 0 then
      [Finding(filePath, fileName, EmptyFile, "File '" + fileName + "' is empty.", NotApplicable)]
    else []
  }

  /** checkForEmptyFiles(_, warnings, filePath, fileName, content) */
  method CheckForEmptyFiles(cfg: Config, warnings: WarningList, filePath: string, fileName: string, content: string)
    modifies warnings
    ensures warnings.items == old(warnings.items) + EmptyFileFindings(cfg, filePath, fileName, content)
  {
    if fileName in cfg.ignoreFileFiles {
      return;
    }
    if |Trim(content)| == 0 {
      warnings.Push(Finding(filePath, fileName, EmptyFile, "File '" + fileName + "' is empty.", NotApplicable));
    }
  }

  // ---------------------------------------------------------------------
  // checkForMissingFooter

  function FooterFindings(filePath: string, fileName: string, doc: Document, content: string): (r: seq<Finding>)
    ensures |r| <= 1
    ensures |r| == 1 <==> forall k :: 0 <= k < |doc| ==> doc[k].tag != "footer"
    ensures |r| == 1 ==> (r[0].kind == MissingFooter
      && r[0].lineNumber == Line(FindLineNumber("<footer>", content)))
  {
    SelectEmptyIff(doc, "footer");
    if |Select(doc, "footer")| == 0 then
      [Finding(filePath, fileName, MissingFooter, "Missing <footer> tag.", Line(FindLineNumber("<footer>", content)))]
    else []
  }

  /** checkForMissingFooter($, warnings, filePath, fileName, content) */
  method CheckForMissingFooter(doc: Document, warnings: WarningList, filePath: string, fileName: string, content: string)
    modifies warnings
    ensures warnings.items == old(warnings.items) + FooterFindings(filePath, fileName, doc, content)
  {
    if |Select(doc, "footer")| == 0 {
      warnings.Push(Finding(filePath, fileName, MissingFooter, "Missing <footer> tag.",
        Line(FindLineNumber("<footer>", content))));
    }
  }

  // ---------------------------------------------------------------------
  // checkForInvalidMailtoLinks

  const MailtoPrefix := "mailto:"

  /** $(el).attr("href") || "" */
  function Href(e: Element): string {
    match Attr(e, "href")
    case Some(v) => v
    case None => ""
  }

  predicate IsMailto(e: Element) {
    StartsWith(Href(e), MailtoPrefix)
  }

  /** href.replace("mailto:", "").trim() for an href that starts with the
      prefix, so that the first occurrence replaced is the prefix itself. */
  function Email(href: string): string
    requires StartsWith(href, MailtoPrefix)
  {
    Trim(href[|MailtoPrefix|..])
  }

  /** No "@" and no white space. */
  predicate NoAtOrSpace(t: string) {
    forall k :: 0 <= k < |t| ==> t[k] != '@' && !IsSpace(t[k])
  }

  /** The language of /^[^\s@]+@[^\s@]+\.[^\s@]+$/: three non-empty parts free
      of "@" and white space, joined by "@" and by a ".". */
  predicate EmailShape(s: string) {
    exists i, j :: 0 < i && i + 1 < j && j + 1 < |s| && s[i] == '@' && s[j] == '.'
      && NoAtOrSpace(s[..i]) && NoAtOrSpace(s[i + 1..j]) && NoAtOrSpace(s[j + 1..])
  }

  /** The address test as a scan: no white space, exactly one "@" and that not
      first, and a "." at least two places after it that is not last. */
  predicate IsEmail(s: string) {
    && (forall k :: 0 <= k < |s| ==> !IsSpace(s[k]))
    && var at := CharFrom(s, '@', 0);
    && at > 0
    && CharFrom(s, '@', at + 1) == -1
    && at + 2 <= |s|
    && var dot := CharFrom(s, '.', at + 2);
    dot != -1 && dot + 1 < |s|
  }

  /** Every address the scan accepts matches the regular expression. */
  lemma IsEmailShape(s: string)
    requires IsEmail(s)
    ensures EmailShape(s)
  {
    var i := CharFrom(s, '@', 0);
    var j := CharFrom(s, '.', i + 2);
    assert forall k :: 0 <= k < |s| && k != i ==> s[k] != '@';
    assert NoAtOrSpace(s[..i]);
    assert NoAtOrSpace(s[i + 1..j]);
    assert NoAtOrSpace(s[j + 1..]);
  }

  /** In an address of the shape with its "@" at i, no other character is an
      "@" and none is white space. */
  lemma ShapeChars(s: string, i: nat, j: nat)
    requires 0 < i && i + 1 < j && j + 1 < |s| && s[i] == '@' && s[j] == '.'
    requires NoAtOrSpace(s[..i]) && NoAtOrSpace(s[i + 1..j]) && NoAtOrSpace(s[j + 1..])
    ensures forall k :: 0 <= k < |s| && k != i ==> s[k] != '@' && !IsSpace(s[k])
  {
    forall k | 0 <= k < |s| && k != i
      ensures s[k] != '@' && !IsSpace(s[k])
    {
      if k < i {
        assert s[..i][k] == s[k];
      } else if k < j {
        assert s[i + 1..j][k - i - 1] == s[k];
      } else if k > j {
        assert s[j + 1..][k - j - 1] == s[k];
      }
    }
  }

  /** Every address the regular expression matches, the scan accepts. */
  lemma ShapeIsEmail(s: string)
    requires EmailShape(s)
    ensures IsEmail(s)
  {
    var i, j :| 0 < i && i + 1 < j && j + 1 < |s| && s[i] == '@' && s[j] == '.'
      && NoAtOrSpace(s[..i]) && NoAtOrSpace(s[i + 1..j]) && NoAtOrSpace(s[j + 1..]);
    ShapeIsEmailAt(s, i, j);
  }

  /** The scan accepts an address of the shape with its "@" at i and its "."
      at j. */
  lemma ShapeIsEmailAt(s: string, i: nat, j: nat)
    requires 0 < i && i + 1 < j && j + 1 < |s| && s[i] == '@' && s[j] == '.'
    requires NoAtOrSpace(s[..i]) && NoAtOrSpace(s[i + 1..j]) && NoAtOrSpace(s[j + 1..])
    ensures IsEmail(s)
  {
    ShapeChars(s, i, j);
    assert !IsSpace('@');
    CharFromIs(s, '@', 0, i);
    CharFromIs(s, '@', i + 1, -1);
    CharFromFinds(s, '.', i + 2, j);
  }

  /** The scan accepts exactly the addresses the regular expression matches. */
  lemma IsEmailIff(s: string)
    ensures IsEmail(s) <==> EmailShape(s)
  {
    if IsEmail(s) {
      IsEmailShape(s);
    }
    if EmailShape(s) {
      ShapeIsEmail(s);
    }
  }

  /** The text searched for to place an anchor: href="…" */
  function Snippet(href: string): string {
    "href=\"" + href + "\""
  }

  /** The state of the scan over the anchors: the findings so far and the
      offset the next search starts from. */
  datatype Scan = Scan(found: seq<Finding>, lastIndex: nat)

  function InvalidMailtoRecord(filePath: string, fileName: string, href: string, line: int): Finding {
    Finding(filePath, fileName, InvalidMailto, "Invalid mailto link '" + href + "'.", Line(line))
  }

  function TargetRecord(filePath: string, fileName: string, href: string, line: int): Finding {
    Finding(filePath, fileName, MissingTargetBlank, "Mailto link '" + href + "' should use target=\"_blank\".", Line(line))
  }

  /** The records a placed, non-ignored mailto anchor yields on its line, given
      whether its address passed the test and whether its target is "_blank":
      at most two, an invalid-address record exactly when the address failed,
      a missing-target record exactly when the target is not "_blank", and
      every one on that line. */
  function MailtoRecords(filePath: string, fileName: string, href: string, valid: bool, blank: bool, line: int): (r: seq<Finding>)
    ensures |r| <= 2
    ensures InvalidMailtoRecord(filePath, fileName, href, line) in r <==> !valid
    ensures TargetRecord(filePath, fileName, href, line) in r <==> !blank
    ensures forall f :: f in r ==> f.lineNumber == Line(line) && (f.kind == InvalidMailto || f.kind == MissingTargetBlank)
  {
    (if !valid then [InvalidMailtoRecord(filePath, fileName, href, line)] else [])
    + (if !blank then [TargetRecord(filePath, fileName, href, line)] else [])
  }

  /** The records of one mailto anchor on a given line. */
  function AnchorRecords(filePath: string, fileName: string, e: Element, line: int): seq<Finding>
    requires IsMailto(e)
  {
    MailtoRecords(filePath, fileName, Href(e), IsEmail(Email(Href(e))), Attr(e, "target") == Some("_blank"), line)
  }

  /** An anchor's invalid-address record is there exactly when its trimmed
      address fails the regular expression. */
  lemma AnchorRecordsExact(filePath: string, fileName: string, e: Element, line: int)
    requires IsMailto(e)
    ensures InvalidMailtoRecord(filePath, fileName, Href(e), line) in AnchorRecords(filePath, fileName, e, line)
      <==> !EmailShape(Email(Href(e)))
    ensures TargetRecord(filePath, fileName, Href(e), line) in AnchorRecords(filePath, fileName, e, line)
      <==> Attr(e, "target") != Some("_blank")
  {
    IsEmailIff(Email(Href(e)));
  }

  /** Where the anchor's snippet is found searching from the offset. */
  function Locate(content: string, lastIndex: nat, e: Element): int {
    IndexOf(content, Snippet(Href(e)), lastIndex)
  }

  /** What the callback does for one anchor, given the offset it finds: the
      records it appends and the offset it leaves for the next anchor. */
  function MailtoVisit(filePath: string, fileName: string, content: string, lastIndex: nat, e: Element): Scan {
    if !IsMailto(e) then Scan([], lastIndex)
    else
      var index := Locate(content, lastIndex, e);
      if index == -1 then Scan([], 0)
      else
        var line := LineAt(content, index);
        var next := index + |Snippet(Href(e))|;
        if Contains(Split(content)[line - 1], IgnoreMarker) then Scan([], next)
        else Scan(AnchorRecords(filePath, fileName, e, line), next)
  }

  /** The scan over the anchors in document order, from offset 0: all the
      records appended and the final offset. */
  function MailtoScan(filePath: string, fileName: string, content: string, anchors: seq<Element>): Scan {
    if |anchors| == 0 then Scan([], 0)
    else
      var prev := MailtoScan(filePath, fileName, content, anchors[..|anchors| - 1]);
      var v := MailtoVisit(filePath, fileName, content, prev.lastIndex, anchors[|anchors| - 1]);
      Scan(prev.found + v.found, v.lastIndex)
  }

  /** The search offset never passes the end of the text. */
  lemma {:induction false} MailtoScanBound(filePath: string, fileName: string, content: string, anchors: seq<Element>)
    ensures MailtoScan(filePath, fileName, content, anchors).lastIndex <= |content|
  {
    if |anchors| > 0 {
      MailtoScanBound(filePath, fileName, content, anchors[..|anchors| - 1]);
    }
  }

  /** An anchor whose href does not start with "mailto:" appends nothing and
      keeps the offset; a mailto anchor whose snippet is not found appends
      nothing and resets the offset to 0. */
  lemma MailtoVisitSkips(filePath: string, fileName: string, content: string, lastIndex: nat, e: Element)
    ensures !IsMailto(e) ==> MailtoVisit(filePath, fileName, content, lastIndex, e) == Scan([], lastIndex)
    ensures IsMailto(e) && Locate(content, lastIndex, e) == -1 ==>
      MailtoVisit(filePath, fileName, content, lastIndex, e) == Scan([], 0)
  {
  }

  /** A mailto anchor whose snippet is found is found at or after the offset
      (when that lies within the text);
      the offset moves just past that occurrence, and the anchor's records are
      appended on the line of the occurrence unless that line carries the
      ignore marker. */
  lemma MailtoVisitFound(filePath: string, fileName: string, content: string, lastIndex: nat, e: Element)
    requires IsMailto(e) && Locate(content, lastIndex, e) != -1
    ensures lastIndex <= |content| ==> lastIndex <= Locate(content, lastIndex, e)
    ensures OccursAt(content, Snippet(Href(e)), Locate(content, lastIndex, e))
    ensures MailtoVisit(filePath, fileName, content, lastIndex, e).lastIndex
      == Locate(content, lastIndex, e) + |Snippet(Href(e))|
    ensures MailtoVisit(filePath, fileName, content, lastIndex, e).found
      == if Contains(Split(content)[LineAt(content, Locate(content, lastIndex, e)) - 1], IgnoreMarker) then []
         else AnchorRecords(filePath, fileName, e, LineAt(content, Locate(content, lastIndex, e)))
  {
  }

  /** Two mailto anchors placed one right after the other are found at strictly
      increasing offsets, on non-decreasing lines. */
  lemma MailtoSuccessive(filePath: string, fileName: string, content: string, lastIndex: nat, e1: Element, e2: Element)
    requires lastIndex <= |content|
    requires IsMailto(e1) && Locate(content, lastIndex, e1) != -1
    requires IsMailto(e2)
    requires Locate(content, MailtoVisit(filePath, fileName, content, lastIndex, e1).lastIndex, e2) != -1
    ensures Locate(content, lastIndex, e1)
      < Locate(content, MailtoVisit(filePath, fileName, content, lastIndex, e1).lastIndex, e2)
    ensures LineAt(content, Locate(content, lastIndex, e1))
      <= LineAt(content, Locate(content, MailtoVisit(filePath, fileName, content, lastIndex, e1).lastIndex, e2))
  {
    var i1 := Locate(content, lastIndex, e1);
    var next := MailtoVisit(filePath, fileName, content, lastIndex, e1).lastIndex;
    MailtoVisitFound(filePath, fileName, content, lastIndex, e1);
    assert next == i1 + |Snippet(Href(e1))| <= |content|;
    var i2 := Locate(content, next, e2);
    assert next <= i2;
    LineAtMonotone(content, i1, i2);
  }

  /** The two checks the callback runs on a placed, non-ignored mailto anchor. */
  method ReportAnchor(el: Element, warnings: WarningList, filePath: string, fileName: string, lineNumber: int)
    requires IsMailto(el)
    modifies warnings
    ensures warnings.items == old(warnings.items) + AnchorRecords(filePath, fileName, el, lineNumber)
  {
    var href := Href(el);
    var target := Attr(el, "target");
    var email := Trim(href[|MailtoPrefix|..]);
    ghost var invalid := if !IsEmail(email) then [InvalidMailtoRecord(filePath, fileName, href, lineNumber)] else [];
    ghost var noTarget := if target != Some("_blank") then [TargetRecord(filePath, fileName, href, lineNumber)] else [];
    assert AnchorRecords(filePath, fileName, el, lineNumber) == invalid + noTarget;
    if !IsEmail(email) {
      warnings.Push(Finding(filePath, fileName, InvalidMailto, "Invalid mailto link '" + href + "'.", Line(lineNumber)));
    }
    assert warnings.items == old(warnings.items) + invalid;
    if target != Some("_blank") {
      warnings.Push(Finding(filePath, fileName, MissingTargetBlank, "Mailto link '" + href + "' should use target=\"_blank\".", Line(lineNumber)));
    }
    AppendAssoc(old(warnings.items), invalid, noTarget);
  }

  /** The callback run for each anchor: it appends the anchor's records and
      returns the offset the next anchor searches from. */
  method VisitAnchor(el: Element, warnings: WarningList, filePath: string, fileName: string, content: string,
                     lines: seq<string>, lastIndex: nat) returns (nextIndex: nat)
    requires lines == Split(content)
    modifies warnings
    ensures warnings.items == old(warnings.items) + MailtoVisit(filePath, fileName, content, lastIndex, el).found
    ensures nextIndex == MailtoVisit(filePath, fileName, content, lastIndex, el).lastIndex
  {
    var href := Href(el);
    nextIndex := lastIndex;
    MailtoVisitSkips(filePath, fileName, content, lastIndex, el);
    if !StartsWith(href, MailtoPrefix) {
      return;
    }
    var searchSnippet := "href=\"" + href + "\"";
    var index := IndexOf(content, searchSnippet, lastIndex);
    if index == -1 {
      nextIndex := 0;
      return;
    }
    MailtoVisitFound(filePath, fileName, content, lastIndex, el);
    nextIndex := index + |searchSnippet|;
    PrefixLines(content, index);
    var lineNumber := |Split(content[..index])|;
    var shouldIgnore := Contains(lines[lineNumber - 1], IgnoreMarker);
    if shouldIgnore {
      return;
    }
    ReportAnchor(el, warnings, filePath, fileName, lineNumber);
  }

  /** checkForInvalidMailtoLinks($, warnings, filePath, fileName, content) */
  method CheckForInvalidMailtoLinks(doc: Document, warnings: WarningList, filePath: string, fileName: string, content: string)
    modifies warnings
    ensures warnings.items == old(warnings.items) + MailtoScan(filePath, fileName, content, Select(doc, "a")).found
  {
    var lines := Split(content);
    var lastIndex := 0;
    var anchors := Select(doc, "a");
    for j := 0 to |anchors|
      invariant warnings.items == old(warnings.items) + MailtoScan(filePath, fileName, content, anchors[..j]).found
      invariant lastIndex == MailtoScan(filePath, fileName, content, anchors[..j]).lastIndex
    {
      assert anchors[..j + 1][..j] == anchors[..j];
      ghost var prev := MailtoScan(filePath, fileName, content, anchors[..j]);
      ghost var v := MailtoVisit(filePath, fileName, content, lastIndex, anchors[j]);
      lastIndex := VisitAnchor(anchors[j], warnings, filePath, fileName, content, lines, lastIndex);
      AppendAssoc(old(warnings.items), prev.found, v.found);
    }
    assert anchors[..|anchors|] == anchors;
  }

  // ---------------------------------------------------------------------
  // checkForHtmlComments

  /** One match of /<!--([\s\S]*?)-->/g, by position: the offset of its
      "<!--" and the offset of the "-->" that closes it. */
  datatype Comment = Comment(start: nat, close: nat)

  /** The offset just after the match, where the next search resumes. */
  function End(c: Comment): nat {
    c.close + 3
  }

  /** match[0]: the full text of a match, "" for a position outside content. */
  function Full(content: string, c: Comment): string {
    if c.start <= End(c) <= |content| then content[c.start..End(c)] else []
  }

  /** match[1]: the captured body, "" for a position outside content. */
  function Inner(content: string, c: Comment): string {
    if c.start + 4 <= c.close <= |content| then content[c.start + 4..c.close] else []
  }

  /** The next match at or after offset from: the first "<!--" from there,
      closed by the first "-->" after it; none when either is missing. */
  function NextComment(content: string, from: nat): (r: Option<Comment>)
    ensures r.Some? ==> from <= r.value.start && r.value.start + 4 <= r.value.close && End(r.value) <= |content|
  {
    var a := IndexOf(content, "<!--", from);
    if a == -1 then None
    else
      var b := IndexOf(content, "-->", a + 4);
      if b == -1 then None
      else Some(Comment(a, b))
  }

  /** The match found is an occurrence of "<!--", a body and "-->"; no "<!--"
      starts between the offset and the match, and the body is the shortest one
      (no "-->" starts inside it). */
  lemma NextCommentFound(content: string, from: nat)
    requires NextComment(content, from).Some?
    ensures OccursAt(content, Full(content, NextComment(content, from).value), NextComment(content, from).value.start)
    ensures Full(content, NextComment(content, from).value) == "<!--" + Inner(content, NextComment(content, from).value) + "-->"
    ensures forall p :: from <= p < NextComment(content, from).value.start ==> !OccursAt(content, "<!--", p)
    ensures forall p :: NextComment(content, from).value.start + 4 <= p < NextComment(content, from).value.close ==> !OccursAt(content, "-->", p)
  {
    var f := if from <= |content| then from else |content|;
    var a := FindFrom(content, "<!--", f);
    FindFromFirst(content, "<!--", f);
    var b := FindFrom(content, "-->", a + 4);
    FindFromFirst(content, "-->", a + 4);
    var c := Comment(a, b);
    assert NextComment(content, from).value == c;
    assert Full(content, c) == content[a..b + 3];
    assert Inner(content, c) == content[a + 4..b];
    assert content[a..a + 4] == "<!--";
    assert content[b..b + 3] == "-->";
    assert content[a..b + 3] == content[a..a + 4] + content[a + 4..b] + content[b..b + 3];
  }

  /** When there is no match, either no "<!--" follows the offset or no "-->"
      follows the first one. */
  lemma NextCommentMissing(content: string, from: nat)
    requires from <= |content| && NextComment(content, from).None?
    ensures || (forall p :: from <= p ==> !OccursAt(content, "<!--", p))
            || (exists a :: from <= a && OccursAt(content, "<!--", a) && forall p :: a + 4 <= p ==> !OccursAt(content, "-->", p))
  {
    var a := FindFrom(content, "<!--", from);
    FindFromFirst(content, "<!--", from);
    if a != -1 {
      FindFromFirst(content, "-->", a + 4);
    }
  }

  /** All the matches from offset from on, each search starting where the last
      match ended. */
  function Comments(content: string, from: nat): seq<Comment>
    requires from <= |content|
    decreases |content| - from
  {
    match NextComment(content, from)
    case None => []
    case Some(c) => [c] + Comments(content, End(c))
  }

  /** A step of the scan: the matches from an offset are the next match and
      the matches after it. */
  lemma CommentsStep(content: string, from: nat, c: Comment)
    requires from <= |content| && NextComment(content, from) == Some(c)
    ensures Comments(content, from) == [c] + Comments(content, End(c))
  {
  }

  /** Every match lies at or after the offset and is an occurrence of "<!--",
      a body and "-->". */
  lemma {:induction false} CommentsPlaced(content: string, from: nat)
    requires from <= |content|
    ensures forall k :: 0 <= k < |Comments(content, from)| ==>
      && from <= Comments(content, from)[k].start
      && OccursAt(content, Full(content, Comments(content, from)[k]), Comments(content, from)[k].start)
      && Full(content, Comments(content, from)[k]) == "<!--" + Inner(content, Comments(content, from)[k]) + "-->"
    decreases |content| - from
  {
    var m := NextComment(content, from);
    if m.Some? {
      var c := m.value;
      NextCommentFound(content, from);
      CommentsStep(content, from, c);
      CommentsPlaced(content, End(c));
      var cs := Comments(content, from);
      var rest := Comments(content, End(c));
      forall k | 0 < k < |cs|
        ensures cs[k] == rest[k - 1]
      {
      }
    }
  }

  /** Each match starts after the previous one ended. */
  lemma {:induction false} CommentsOrdered(content: string, from: nat)
    requires from <= |content|
    ensures forall k :: 0 < k < |Comments(content, from)| ==>
      End(Comments(content, from)[k - 1]) <= Comments(content, from)[k].start
    decreases |content| - from
  {
    var m := NextComment(content, from);
    if m.Some? {
      var c := m.value;
      CommentsStep(content, from, c);
      CommentsOrdered(content, End(c));
      CommentsPlaced(content, End(c));
      var cs := Comments(content, from);
      var rest := Comments(content, End(c));
      forall k | 0 < k < |cs|
        ensures End(cs[k - 1]) <= cs[k].start
      {
        assert cs[k] == rest[k - 1];
        if k > 1 {
          assert cs[k - 1] == rest[k - 2];
        }
      }
    }
  }

  /** commentText.slice(0, 80) followed by "..." when the text is longer. */
  function Preview(t: string): (r: string)
    ensures |t| <= 80 ==> r == t
    ensures |t| > 80 ==> |r| == 83 && r[..80] == t[..80] && r[80..] == "..."
  {
    if |t| > 80 then t[..80] + "..." else t
  }

  function CommentKind(content: string, c: Comment): Kind {
    if '\n' in Full(content, c) then MultiLineComment else SingleLineComment
  }

  function CommentFinding(filePath: string, fileName: string, content: string, c: Comment): Finding {
    Finding(filePath, fileName, CommentKind(content, c),
      "Found HTML comment: \"" + Preview(Trim(Inner(content, c))) + "\"",
      Line(FindLineNumber(Full(content, c), content)))
  }

  predicate CommentReported(content: string, c: Comment) {
    Trim(Inner(content, c)) != []
  }

  /** The findings for the matches cs, one per match with a non-blank body. */
  function CommentFindingsOf(filePath: string, fileName: string, content: string, cs: seq<Comment>): seq<Finding> {
    KeepMap(cs, c => CommentReported(content, c), c => CommentFinding(filePath, fileName, content, c))
  }

  lemma CommentFindingsSnoc(filePath: string, fileName: string, content: string, cs: seq<Comment>, c: Comment)
    ensures CommentFindingsOf(filePath, fileName, content, cs + [c])
      == CommentFindingsOf(filePath, fileName, content, cs)
        + (if CommentReported(content, c) then [CommentFinding(filePath, fileName, content, c)] else [])
  {
    KeepMapSnoc(cs, c, c => CommentReported(content, c), c => CommentFinding(filePath, fileName, content, c));
  }

  /** The findings the rule appends, in the order of the matches. */
  function CommentFindings(filePath: string, fileName: string, content: string): seq<Finding> {
    CommentFindingsOf(filePath, fileName, content, Comments(content, 0))
  }

  /** A finding is appended exactly for each match whose body is reported. */
  lemma CommentExact(filePath: string, fileName: string, content: string)
    ensures forall f :: f in CommentFindings(filePath, fileName, content) <==>
      exists c :: c in Comments(content, 0) && CommentReported(content, c) && f == CommentFinding(filePath, fileName, content, c)
  {
    var cs := Comments(content, 0);
    var keep := c => CommentReported(content, c);
    var f := c => CommentFinding(filePath, fileName, content, c);
    KeepMapSound(cs, keep, f);
    KeepMapComplete(cs, keep, f);
  }

  /** A body is reported exactly when it is not only white space. */
  lemma CommentReportedIff(content: string, c: Comment)
    ensures CommentReported(content, c) <==> !AllSpace(Inner(content, c))
  {
    TrimEmptyIff(Inner(content, c));
  }

  /** The finding for a match is multi-line exactly when the full match holds a
      "\n", and its line is that of the first occurrence of the same full text:
      never later than the match itself. */
  lemma CommentFindingLine(filePath: string, fileName: string, content: string, c: Comment)
    requires c in Comments(content, 0)
    ensures c.start <= |content|
    ensures CommentFinding(filePath, fileName, content, c).kind == MultiLineComment <==> '\n' in Full(content, c)
    ensures CommentFinding(filePath, fileName, content, c).lineNumber.Line?
    ensures 1 <= CommentFinding(filePath, fileName, content, c).lineNumber.n <= LineAt(content, c.start)
  {
    CommentsPlaced(content, 0);
    var k :| 0 <= k < |Comments(content, 0)| && Comments(content, 0)[k] == c;
    FindLineNumberFirst(Full(content, c), content, c.start);
  }

  /** The body of the rule's loop for one match. */
  method VisitComment(warnings: WarningList, filePath: string, fileName: string, content: string, c: Comment)
    modifies warnings
    ensures warnings.items == old(warnings.items)
      + (if CommentReported(content, c) then [CommentFinding(filePath, fileName, content, c)] else [])
  {
    var fullMatch := Full(content, c);
    var commentText := Trim(Inner(content, c));
    var lineNumber := FindLineNumber(fullMatch, content);
    if commentText == [] {
      return;
    }
    var isMultiline := '\n' in fullMatch;
    var kind := if isMultiline then MultiLineComment else SingleLineComment;
    warnings.Push(Finding(filePath, fileName, kind,
      "Found HTML comment: \"" + Preview(commentText) + "\"", Line(lineNumber)));
  }

  /** checkForHtmlComments($, warnings, filePath, fileName, content) */
  method CheckForHtmlComments(warnings: WarningList, filePath: string, fileName: string, content: string)
    modifies warnings
    ensures warnings.items == old(warnings.items) + CommentFindings(filePath, fileName, content)
  {
    var lastIndex := 0;
    ghost var done: seq<Comment> := [];
    while true
      invariant lastIndex <= |content|
      invariant done + Comments(content, lastIndex) == Comments(content, 0)
      invariant warnings.items == old(warnings.items) + CommentFindingsOf(filePath, fileName, content, done)
      decreases |content| - lastIndex
    {
      var m := NextComment(content, lastIndex);
      if m.None? {
        break;
      }
      var c := m.value;
      CommentsStep(content, lastIndex, c);
      AppendAssoc(done, [c], Comments(content, End(c)));
      CommentFindingsSnoc(filePath, fileName, content, done, c);
      ghost var before := CommentFindingsOf(filePath, fileName, content, done);
      VisitComment(warnings, filePath, fileName, content, c);
      AppendAssoc(old(warnings.items), before,
        if CommentReported(content, c) then [CommentFinding(filePath, fileName, content, c)] else []);
      done := done + [c];
      lastIndex := End(c);
    }
    assert done == Comments(content, 0);
  }

  // ---------------------------------------------------------------------
  // checkForGlobalProjectVariablesMissing

  /** The offset just after a match of name at m, where the next search
      resumes. */
  function Resume(m: nat, name: string): nat {
    m + |name|
  }

  /** The matches of new RegExp(name, "g") for a literal, non-empty name, from
      offset from on: leftmost occurrences, each search resuming where the last
      match ended. */
  function Occurrences(content: string, name: string, from: nat): seq<nat>
    requires name != "" && from <= |content|
    decreases |content| - from
  {
    var m := FindFrom(content, name, from);
    if m == -1 then [] else [m] + Occurrences(content, name, Resume(m, name))
  }

  /** Every match is an occurrence of the name at or after the offset, and
      each match starts after the previous one ended. */
  lemma {:induction false} OccurrencesSpec(content: string, name: string, from: nat)
    requires name != "" && from <= |content|
    ensures forall k :: 0 <= k < |Occurrences(content, name, from)| ==>
      from <= Occurrences(content, name, from)[k] && OccursAt(content, name, Occurrences(content, name, from)[k])
    ensures forall k :: 0 < k < |Occurrences(content, name, from)| ==>
      Occurrences(content, name, from)[k - 1] + |name| <= Occurrences(content, name, from)[k]
    decreases |content| - from
  {
    var m := FindFrom(content, name, from);
    if m != -1 {
      OccurrencesSpec(content, name, Resume(m, name));
      var ms := Occurrences(content, name, from);
      var rest := Occurrences(content, name, Resume(m, name));
      assert ms == [m] + rest;
      forall k | 0 < k < |ms|
        ensures ms[k] == rest[k - 1]
      {
      }
    }
  }

  /** Every match lies within the content. */
  lemma OccurrencesBounded(content: string, name: string, from: nat)
    requires name != "" && from <= |content|
    ensures forall k :: 0 <= k < |Occurrences(content, name, from)| ==> Occurrences(content, name, from)[k] <= |content|
  {
    OccurrencesSpec(content, name, from);
  }

  /** The matches are exactly the non-overlapping leftmost occurrences: no
      occurrence starts between the search offset and the first match, nor
      between the end of one match and the next. */
  lemma {:induction false} OccurrencesLeftmost(content: string, name: string, from: nat)
    requires name != "" && from <= |content|
    ensures |Occurrences(content, name, from)| == 0 ==>
      forall p :: from <= p <= |content| ==> !OccursAt(content, name, p)
    ensures |Occurrences(content, name, from)| > 0 ==>
      forall p :: from <= p < Occurrences(content, name, from)[0] ==> !OccursAt(content, name, p)
    ensures forall k, p ::
      (0 < k < |Occurrences(content, name, from)|
       && Occurrences(content, name, from)[k - 1] + |name| <= p < Occurrences(content, name, from)[k])
      ==> !OccursAt(content, name, p)
    decreases |content| - from
  {
    var m := FindFrom(content, name, from);
    FindFromFirst(content, name, from);
    if m != -1 {
      var rest := Occurrences(content, name, Resume(m, name));
      OccurrencesLeftmost(content, name, Resume(m, name));
      var ms := Occurrences(content, name, from);
      assert ms == [m] + rest;
      forall k, p | 0 < k < |ms| && ms[k - 1] + |name| <= p < ms[k]
        ensures !OccursAt(content, name, p)
      {
        if k == 1 {
          assert ms[0] == m && ms[1] == rest[0];
        } else {
          assert ms[k - 1] == rest[k - 2] && ms[k] == rest[k - 1];
        }
      }
    }
  }

  /** A step of the scan: the matches from an offset are the next occurrence
      and the matches after it. */
  lemma OccurrencesStep(content: string, name: string, from: nat, m: nat)
    requires name != "" && from <= |content| && FindFrom(content, name, from) == m
    ensures Resume(m, name) <= |content|
    ensures Occurrences(content, name, from) == [m] + Occurrences(content, name, Resume(m, name))
  {
  }

  /** The line holding a match carries the ignore marker. */
  predicate MatchIgnored(content: string, m: nat)
    requires m <= |content|
  {
    Contains(Split(content)[LineAt(content, m) - 1], IgnoreMarker)
  }

  function VarFinding(filePath: string, fileName: string, name: string, line: int): Finding {
    Finding(filePath, fileName, GlobalVariableUsage,
      "Global variable '" + name + "' found. Consider modular approach.", Line(line))
  }

  /** The findings for the matches ms of one name, in match order. */
  function VarFindings(filePath: string, fileName: string, content: string, name: string, ms: seq<nat>): (r: seq<Finding>)
    requires forall k :: 0 <= k < |ms| ==> ms[k] <= |content|
    ensures |r| <= |ms|
  {
    if |ms| == 0 then []
    else
      var m := ms[|ms| - 1];
      VarFindings(filePath, fileName, content, name, ms[..|ms| - 1])
        + (if MatchIgnored(content, m) then [] else [VarFinding(filePath, fileName, name, LineAt(content, m))])
  }

  /** One finding per match whose line does not carry the ignore marker, on
      the line holding the match, and no other. */
  lemma {:induction false} VarFindingsExact(filePath: string, fileName: string, content: string, name: string, ms: seq<nat>)
    requires forall k :: 0 <= k < |ms| ==> ms[k] <= |content|
    ensures forall f :: f in VarFindings(filePath, fileName, content, name, ms) <==>
      exists k :: 0 <= k < |ms| && !MatchIgnored(content, ms[k])
        && f == VarFinding(filePath, fileName, name, LineAt(content, ms[k]))
  {
    if |ms| > 0 {
      var init := ms[..|ms| - 1];
      VarFindingsExact(filePath, fileName, content, name, init);
      assert forall k :: 0 <= k < |init| ==> init[k] == ms[k];
    }
  }

  lemma VarFindingsSnoc(filePath: string, fileName: string, content: string, name: string, ms: seq<nat>, m: nat)
    requires forall k :: 0 <= k < |ms| ==> ms[k] <= |content|
    requires m <= |content|
    ensures forall k :: 0 <= k < |ms + [m]| ==> (ms + [m])[k] <= |content|
    ensures VarFindings(filePath, fileName, content, name, ms + [m])
      == VarFindings(filePath, fileName, content, name, ms)
        + (if MatchIgnored(content, m) then [] else [VarFinding(filePath, fileName, name, LineAt(content, m))])
  {
    assert (ms + [m])[..|ms|] == ms;
  }

  /** The findings for all the matches of one name. */
  function NameFindings(filePath: string, fileName: string, content: string, name: string): seq<Finding>
    requires name != ""
  {
    OccurrencesBounded(content, name, 0);
    VarFindings(filePath, fileName, content, name, Occurrences(content, name, 0))
  }

  predicate NamesValid(names: seq<string>) {
    forall k :: 0 <= k < |names| ==> names[k] != ""
  }

  /** The findings for the configured names, grouped by name in configuration
      order. */
  function GlobalFindings(filePath: string, fileName: string, content: string, names: seq<string>): seq<Finding>
    requires NamesValid(names)
  {
    if |names| == 0 then []
    else
      var name := names[|names| - 1];
      GlobalFindings(filePath, fileName, content, names[..|names| - 1])
        + NameFindings(filePath, fileName, content, name)
  }

  /** The findings for a list of names followed by more names are those for the
      first list followed by those for the rest. */
  lemma {:induction false} GlobalFindingsAppend(filePath: string, fileName: string, content: string, names: seq<string>, more: seq<string>)
    requires NamesValid(names) && NamesValid(more)
    ensures NamesValid(names + more)
    ensures GlobalFindings(filePath, fileName, content, names + more)
      == GlobalFindings(filePath, fileName, content, names) + GlobalFindings(filePath, fileName, content, more)
    decreases |more|
  {
    assert NamesValid(names + more) by {
      forall k | 0 <= k < |names + more| ensures (names + more)[k] != "" {
        if k < |names| {
          assert (names + more)[k] == names[k];
        } else {
          assert (names + more)[k] == more[k - |names|];
        }
      }
    }
    if |more| > 0 {
      var init := more[..|more| - 1];
      assert NamesValid(init) by {
        forall k | 0 <= k < |init| ensures init[k] != "" {
          assert init[k] == more[k];
        }
      }
      GlobalFindingsAppend(filePath, fileName, content, names, init);
      assert (names + more)[..|names + more| - 1] == names + init;
      var last := more[|more| - 1];
      assert (names + more)[|names + more| - 1] == last;
      AppendAssoc(GlobalFindings(filePath, fileName, content, names),
        GlobalFindings(filePath, fileName, content, init),
        NameFindings(filePath, fileName, content, last));
    } else {
      assert names + more == names;
    }
  }

  /** The line-number loop of the rule: it adds up line lengths, one for each
      "\n", until the total passes the match offset. The line it stops at is the
      line holding the offset. */
  method MatchLine(lines: seq<string>, content: string, matchIndex: nat) returns (lineNumber: int)
    requires lines == Split(content) && matchIndex <= |content|
    ensures lineNumber == LineAt(content, matchIndex)
    ensures 1 <= lineNumber <= |lines|
  {
    var charCount := 0;
    lineNumber := 0;
    var i := 0;
    OffsetEnd(content);
    while i < |lines| && lineNumber == 0
      invariant 0 <= i <= |lines|
      invariant lineNumber == 0 ==> charCount == Offset(lines, i) && charCount <= matchIndex
      invariant lineNumber != 0 ==> lineNumber == LineAt(content, matchIndex)
      decreases |lines| - i, if lineNumber == 0 then 1 else 0
    {
      OffsetStep(lines, i);
      charCount := charCount + |lines[i]| + 1;
      if charCount > matchIndex {
        LineAtFromOffsets(content, i, matchIndex);
        lineNumber := i + 1;
      } else {
        i := i + 1;
      }
    }
  }

  /** The body of the match loop for one match: the finding for the match
      unless its line carries the ignore marker. */
  method VisitMatch(warnings: WarningList, filePath: string, fileName: string, content: string,
                    lines: seq<string>, varName: string, matchIndex: nat)
    requires lines == Split(content) && matchIndex <= |content|
    modifies warnings
    ensures warnings.items == old(warnings.items)
      + (if MatchIgnored(content, matchIndex) then [] else [VarFinding(filePath, fileName, varName, LineAt(content, matchIndex))])
  {
    var lineNumber := MatchLine(lines, content, matchIndex);
    var lineContent := lines[lineNumber - 1];
    if Contains(lineContent, IgnoreMarker) {
      return;
    }
    warnings.Push(Finding(filePath, fileName, GlobalVariableUsage,
      "Global variable '" + varName + "' found. Consider modular approach.", Line(lineNumber)));
  }

  /** The matches of one name: appends one finding per match off an ignored
      line. */
  method CheckVariable(warnings: WarningList, filePath: string, fileName: string, content: string,
                       lines: seq<string>, varName: string)
    requires lines == Split(content) && varName != ""
    modifies warnings
    ensures warnings.items == old(warnings.items) + NameFindings(filePath, fileName, content, varName)
  {
    var lastIndex := 0;
    ghost var seen: seq<nat> := [];
    while true
      invariant lastIndex <= |content|
      invariant seen + Occurrences(content, varName, lastIndex) == Occurrences(content, varName, 0)
      invariant forall k :: 0 <= k < |seen| ==> seen[k] <= |content|
      invariant warnings.items == old(warnings.items) + VarFindings(filePath, fileName, content, varName, seen)
      decreases |content| - lastIndex
    {
      var found := FindFrom(content, varName, lastIndex);
      if found == -1 {
        break;
      }
      var matchIndex: nat := found;
      OccurrencesStep(content, varName, lastIndex, matchIndex);
      AppendAssoc(seen, [matchIndex], Occurrences(content, varName, Resume(matchIndex, varName)));
      VarFindingsSnoc(filePath, fileName, content, varName, seen, matchIndex);
      ghost var before := VarFindings(filePath, fileName, content, varName, seen);
      VisitMatch(warnings, filePath, fileName, content, lines, varName, matchIndex);
      AppendAssoc(old(warnings.items), before,
        if MatchIgnored(content, matchIndex) then [] else [VarFinding(filePath, fileName, varName, LineAt(content, matchIndex))]);
      seen := seen + [matchIndex];
      lastIndex := Resume(matchIndex, varName);
    }
    assert seen == Occurrences(content, varName, 0);
  }

  /** checkForGlobalProjectVariablesMissing(_, warnings, filePath, fileName, content) */
  method CheckForGlobalProjectVariablesMissing(cfg: Config, warnings: WarningList, filePath: string, fileName: string, content: string)
    requires NamesValid(cfg.globalProjectVariables)
    modifies warnings
    ensures warnings.items == old(warnings.items) + GlobalFindings(filePath, fileName, content, cfg.globalProjectVariables)
  {
    var globals := cfg.globalProjectVariables;
    var lines := Split(content);
    for g := 0 to |globals|
      invariant warnings.items == old(warnings.items) + GlobalFindings(filePath, fileName, content, globals[..g])
    {
      assert globals[..g + 1][..g] == globals[..g];
      ghost var before := GlobalFindings(filePath, fileName, content, globals[..g]);
      CheckVariable(warnings, filePath, fileName, content, lines, globals[g]);
      AppendAssoc(old(warnings.items), before,
        NameFindings(filePath, fileName, content, globals[g]));
    }
    assert globals[..|globals|] == globals;
  }

  // ---------------------------------------------------------------------
  // getAllFolders

  /** The folders the walk pushes for one entry of dir's listing: nothing for
      a file or an ignored directory; otherwise the directory's own path
      followed by everything the walk finds beneath it. */
  function EntryFolders(dir: string, e: Entry, ignore: seq<string>): seq<string>
    decreases e
  {
    match e
    case File(_) => []
    case Dir(name, items) =>
      if name in ignore then []
      else [JoinPath(dir, name)] + Folders(JoinPath(dir, name), items, ignore)
  }

  /** getAllFolders(dir, folders) on a listing: the pushes of each entry, in
      listing order. */
  function Folders(dir: string, items: seq<Entry>, ignore: seq<string>): seq<string>
    decreases items
  {
    if |items| == 0 then []
    else Folders(dir, items[..|items| - 1], ignore) + EntryFolders(dir, items[|items| - 1], ignore)
  }

  lemma FoldersStep(dir: string, items: seq<Entry>, ignore: seq<string>, i: nat)
    requires i < |items|
    ensures Folders(dir, items[..i + 1], ignore) == Folders(dir, items[..i], ignore) + EntryFolders(dir, items[i], ignore)
  {
    assert items[..i + 1][..i] == items[..i];
  }

  /** An independent description of the listed paths: a path is listed when
      it names a directory that is reached from dir through directories none
      of which is ignored. */
  predicate EntryReaches(dir: string, e: Entry, ignore: seq<string>, p: string)
    decreases e
  {
    match e
    case File(_) => false
    case Dir(name, items) =>
      name !in ignore && (p == JoinPath(dir, name) || Reaches(JoinPath(dir, name), items, ignore, p))
  }

  predicate Reaches(dir: string, items: seq<Entry>, ignore: seq<string>, p: string)
    decreases items
  {
    exists k :: 0 <= k < |items| && EntryReaches(dir, items[k], ignore, p)
  }

  /** The walk lists exactly the reachable directories. */
  lemma {:induction false} FoldersReach(dir: string, items: seq<Entry>, ignore: seq<string>, p: string)
    ensures p in Folders(dir, items, ignore) <==> Reaches(dir, items, ignore, p)
    decreases items
  {
    if |items| > 0 {
      var n := |items| - 1;
      var init := items[..n];
      FoldersReach(dir, init, ignore, p);
      EntryFoldersReach(dir, items[n], ignore, p);
      if Reaches(dir, items, ignore, p) {
        var k :| 0 <= k < |items| && EntryReaches(dir, items[k], ignore, p);
        if k < n {
          assert init[k] == items[k];
        }
      }
      if Reaches(dir, init, ignore, p) {
        var k :| 0 <= k < |init| && EntryReaches(dir, init[k], ignore, p);
        assert init[k] == items[k];
      }
    }
  }

  lemma {:induction false} EntryFoldersReach(dir: string, e: Entry, ignore: seq<string>, p: string)
    ensures p in EntryFolders(dir, e, ignore) <==> EntryReaches(dir, e, ignore, p)
    decreases e
  {
    match e
    case File(_) =>
    case Dir(name, items) =>
      if name !in ignore {
        FoldersReach(JoinPath(dir, name), items, ignore, p);
      }
  }

  /** Every entry name in the tree is a single, non-empty path component. */
  predicate EntryNamesValid(e: Entry)
    decreases e
  {
    match e
    case File(name) => name != "" && '/' !in name
    case Dir(name, items) => name != "" && '/' !in name && NamesValidAll(items)
  }

  predicate NamesValidAll(items: seq<Entry>)
    decreases items
  {
    forall k :: 0 <= k < |items| ==> EntryNamesValid(items[k])
  }

  /** No listed folder has an ignored name: each listed path ends in the name
      of a directory that is not ignored. */
  lemma {:induction false} FoldersNotIgnored(dir: string, items: seq<Entry>, ignore: seq<string>)
    requires NamesValidAll(items)
    ensures forall p :: p in Folders(dir, items, ignore) ==> Basename(p) !in ignore
    decreases items
  {
    if |items| > 0 {
      var n := |items| - 1;
      var init := items[..n];
      assert forall k :: 0 <= k < n ==> init[k] == items[k];
      FoldersNotIgnored(dir, init, ignore);
      EntryFoldersNotIgnored(dir, items[n], ignore);
    }
  }

  lemma {:induction false} EntryFoldersNotIgnored(dir: string, e: Entry, ignore: seq<string>)
    requires EntryNamesValid(e)
    ensures forall p :: p in EntryFolders(dir, e, ignore) ==> Basename(p) !in ignore
    decreases e
  {
    match e
    case File(_) =>
    case Dir(name, items) =>
      if name !in ignore {
        BasenameJoin(dir, name);
        FoldersNotIgnored(JoinPath(dir, name), items, ignore);
      }
  }

  /** An ignored directory's contents with everything beneath it removed. */
  function Pruned(e: Entry, ignore: seq<string>): Entry
    decreases e
  {
    match e
    case File(name) => File(name)
    case Dir(name, items) =>
      if name in ignore then Dir(name, []) else Dir(name, PrunedAll(items, ignore))
  }

  function PrunedAll(items: seq<Entry>, ignore: seq<string>): (r: seq<Entry>)
    ensures |r| == |items|
    decreases items
  {
    if |items| == 0 then []
    else PrunedAll(items[..|items| - 1], ignore) + [Pruned(items[|items| - 1], ignore)]
  }

  /** The walk never descends into an ignored directory: what lies beneath
      one has no effect on the folders listed. */
  lemma {:induction false} FoldersSkipIgnored(dir: string, items: seq<Entry>, ignore: seq<string>)
    ensures Folders(dir, PrunedAll(items, ignore), ignore) == Folders(dir, items, ignore)
    decreases items
  {
    if |items| > 0 {
      var n := |items| - 1;
      var pruned := PrunedAll(items, ignore);
      assert pruned[..n] == PrunedAll(items[..n], ignore);
      FoldersSkipIgnored(dir, items[..n], ignore);
      EntryFoldersSkipIgnored(dir, items[n], ignore);
    }
  }

  lemma {:induction false} EntryFoldersSkipIgnored(dir: string, e: Entry, ignore: seq<string>)
    ensures EntryFolders(dir, Pruned(e, ignore), ignore) == EntryFolders(dir, e, ignore)
    decreases e
  {
    match e
    case File(_) =>
    case Dir(name, items) =>
      if name !in ignore {
        FoldersSkipIgnored(JoinPath(dir, name), items, ignore);
      }
  }

  /** getAllFolders(dir, folders), given dir's listing, where each entry that
      is a directory carries its own listing. */
  method GetAllFolders(cfg: Config, dir: string, items: seq<Entry>, folders: PathList)
    modifies folders
    ensures folders.paths == old(folders.paths) + Folders(dir, items, cfg.ignoreDirectories)
    decreases items
  {
    var ignore := cfg.ignoreDirectories;
    for i := 0 to |items|
      invariant folders.paths == old(folders.paths) + Folders(dir, items[..i], ignore)
    {
      var item := items[i];
      FoldersStep(dir, items, ignore, i);
      ghost var before := Folders(dir, items[..i], ignore);
      if item.Dir? && item.name !in ignore {
        var fullPath := JoinPath(dir, item.name);
        folders.Push(fullPath);
        GetAllFolders(cfg, fullPath, item.items, folders);
        AppendAssoc(old(folders.paths) + before, [fullPath], Folders(fullPath, item.items, ignore));
        AppendAssoc(old(folders.paths), before, [fullPath] + Folders(fullPath, item.items, ignore));
      }
    }
    assert items[..|items|] == items;
  }

  // ---------------------------------------------------------------------
  // checkFolderForMissingIndexPhp

  const IndexPhp := "index.php"
  const IndexPhpContent := "<?php\n// Auto-generated index.php\n?>"

  function IndexPath(folderPath: string): string {
    JoinPath(folderPath, IndexPhp)
  }

  function IndexPhpFinding(folderPath: string): Finding {
    Finding(folderPath, IndexPhp, MissingIndexPhp, "index.php was missing and has been created.", NotApplicable)
  }

  /** The files after the rule: the placeholder is written exactly when
      nothing exists at the folder's index.php path. */
  function IndexPhpFiles(files: map<string, string>, dirs: set<string>, folderPath: string): map<string, string> {
    var p := IndexPath(folderPath);
    if p in files || p in dirs then files else files[p := IndexPhpContent]
  }

  /** The findings of the rule: one, carrying "N/A", exactly when it writes
      the file. */
  function IndexPhpFindings(files: map<string, string>, dirs: set<string>, folderPath: string): seq<Finding> {
    var p := IndexPath(folderPath);
    if p in files || p in dirs then [] else [IndexPhpFinding(folderPath)]
  }

  /** A finding is emitted iff the path was absent; afterwards the path
      exists, and only that path has changed. */
  lemma IndexPhpEffect(files: map<string, string>, dirs: set<string>, folderPath: string)
    ensures var r := IndexPhpFindings(files, dirs, folderPath);
      |r| <= 1 && (|r| == 1 <==> IndexPath(folderPath) !in files && IndexPath(folderPath) !in dirs)
    ensures forall f :: f in IndexPhpFindings(files, dirs, folderPath) ==>
      f.lineNumber == NotApplicable && f.filePath == folderPath && f.fileName == "index.php"
    ensures var after := IndexPhpFiles(files, dirs, folderPath);
      IndexPath(folderPath) in after || IndexPath(folderPath) in dirs
    ensures var after := IndexPhpFiles(files, dirs, folderPath);
      forall q :: q != IndexPath(folderPath) ==> (q in after <==> q in files) && (q in files ==> after[q] == files[q])
    ensures var after := IndexPhpFiles(files, dirs, folderPath);
      IndexPath(folderPath) !in files && IndexPath(folderPath) !in dirs ==> after[IndexPath(folderPath)] == IndexPhpContent
  {
  }

  /** Running the rule a second time emits nothing and writes nothing. */
  lemma IndexPhpIdempotent(files: map<string, string>, dirs: set<string>, folderPath: string)
    ensures IndexPhpFindings(IndexPhpFiles(files, dirs, folderPath), dirs, folderPath) == []
    ensures IndexPhpFiles(IndexPhpFiles(files, dirs, folderPath), dirs, folderPath) == IndexPhpFiles(files, dirs, folderPath)
  {
  }

  /** checkFolderForMissingIndexPhp(folderPath, warnings) */
  method CheckFolderForMissingIndexPhp(disk: Disk, folderPath: string, warnings: WarningList)
    modifies disk, warnings
    ensures disk.files == IndexPhpFiles(old(disk.files), old(disk.dirs), folderPath)
    ensures disk.dirs == old(disk.dirs)
    ensures warnings.items == old(warnings.items) + IndexPhpFindings(old(disk.files), old(disk.dirs), folderPath)
  {
    var indexPath := JoinPath(folderPath, IndexPhp);
    var present := disk.Exists(indexPath);
    if !present {
      disk.WriteFile(indexPath, IndexPhpContent);
      warnings.Push(Finding(folderPath, IndexPhp, MissingIndexPhp,
        "index.php was missing and has been created.", NotApplicable));
    }
  }
}
