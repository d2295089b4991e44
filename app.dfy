/** The request handler of app.js and the older rule set beside it: its own
    first-line-containing locator, the missing-tag, missing-alt and
    broken-link rules, the walk that collects the files of a project, and the
    per-file and per-request orchestration. */
module App {
  import opened Text
  import opened Findings
  import opened FileSystem
  import GlobalFunction

  // ---------------------------------------------------------------------
  // findLineNumber

  /** The 1-based number of the first line of content (split on "\n") that
      contains the needle, or -1 when no line does. */
  function LineOf(searchString: string, content: string): int {
    FirstLineContaining(Split(content), searchString)
  }

  /** findLineNumber(searchString, content) */
  method FindLineNumber(searchString: string, content: string) returns (r: int)
    ensures r == LineOf(searchString, content)
    ensures r == -1 <==> forall k :: 0 <= k < |Split(content)| ==> !Contains(Split(content)[k], searchString)
    ensures r != -1 ==> 1 <= r <= |Split(content)| && Contains(Split(content)[r - 1], searchString)
    ensures r != -1 ==> forall k :: 0 <= k < r - 1 ==> !Contains(Split(content)[k], searchString)
  {
    var lines := Split(content);
    for i := 0 to |lines|
      invariant FirstLineFrom(lines, searchString, i) == FirstLineContaining(lines, searchString)
    {
      if Contains(lines[i], searchString) {
        return i + 1;
      }
    }
    return -1;
  }

  /** An occurrence of the needle inside line k is an occurrence in the text,
      lying within that line. */
  lemma OccurrenceInLine(content: string, n: string, k: nat, t: int)
    requires k < |Split(content)| && OccursAt(Split(content)[k], n, t)
    ensures OccursAt(content, n, Offset(Split(content), k) + t)
    ensures Offset(Split(content), k) <= Offset(Split(content), k) + t <= Offset(Split(content), k) + |Split(content)[k]|
  {
    var lines := Split(content);
    var o := Offset(lines, k);
    SplitLine(content, k);
    OccursInSlice(content, o, o + |lines[k]|, n, t);
  }

  /** A line that contains the needle makes the text contain it. */
  lemma LineOfSound(searchString: string, content: string)
    ensures LineOf(searchString, content) != -1 ==> Contains(content, searchString)
  {
    var lines := Split(content);
    var r := LineOf(searchString, content);
    if r != -1 {
      ContainsIff(lines[r - 1], searchString);
      var t :| OccursAt(lines[r - 1], searchString, t);
      OccurrenceInLine(content, searchString, r - 1, t);
      ContainsIff(content, searchString);
    }
  }

  /** An occurrence of a needle without "\n" at offset i puts a containing
      line no later than the line of i. */
  lemma LineOfBound(searchString: string, content: string, i: nat)
    requires OccursAt(content, searchString, i) && '\n' !in searchString
    ensures LineOf(searchString, content) != -1
    ensures LineOf(searchString, content) <= LineAt(content, i)
  {
    var lines := Split(content);
    var k := LineAt(content, i) - 1;
    OccurrenceOnLine(content, searchString, i);
    ContainsIff(lines[k], searchString);
  }

  /** For needles without "\n" the two locators agree: the first line that
      contains the needle is the line of its first occurrence in the text. */
  lemma LocatorsAgree(searchString: string, content: string)
    requires '\n' !in searchString
    ensures LineOf(searchString, content) == GlobalFunction.FindLineNumber(searchString, content)
  {
    LineOfSound(searchString, content);
    if Contains(content, searchString) {
      LineOfFirstOccurrence(searchString, content);
    }
  }

  /** The first containing line is the line of the first occurrence. */
  lemma LineOfFirstOccurrence(searchString: string, content: string)
    requires '\n' !in searchString && Contains(content, searchString)
    ensures LineOf(searchString, content) == LineAt(content, IndexOf(content, searchString, 0))
  {
    LineOfBound(searchString, content, IndexOf(content, searchString, 0));
    LineOfAtLeast(searchString, content);
  }

  /** The first containing line is not before the line of the first
      occurrence: the needle's place in that line is an occurrence in the text. */
  lemma LineOfAtLeast(searchString: string, content: string)
    requires LineOf(searchString, content) != -1
    ensures IndexOf(content, searchString, 0) != -1
    ensures LineAt(content, IndexOf(content, searchString, 0)) <= LineOf(searchString, content)
  {
    var lines := Split(content);
    var n := searchString;
    var r := LineOf(n, content);
    var line := lines[r - 1];
    var t := IndexOf(line, n, 0);
    assert OccursAt(line, n, t);
    OccurrenceLine(content, n, r - 1, t);
    var m := Offset(lines, r - 1) + t;
    IndexOfFirst(content, n, m);
    LineAtMonotone(content, IndexOf(content, n, 0), m);
  }

  /** An occurrence inside line k lies, in the text, on line k + 1. */
  lemma OccurrenceLine(content: string, n: string, k: nat, t: int)
    requires k < |Split(content)| && OccursAt(Split(content)[k], n, t)
    ensures OccursAt(content, n, Offset(Split(content), k) + t)
    ensures LineAt(content, Offset(Split(content), k) + t) == k + 1
  {
    OccurrenceInLine(content, n, k, t);
    LineAtFromOffsets(content, k, Offset(Split(content), k) + t);
  }

  /** A needle with "\n" never fits on one line, so this locator reports -1
      for it even where the offset-based one finds it. */
  lemma LineOfNewline(searchString: string, content: string)
    requires '\n' in searchString
    ensures LineOf(searchString, content) == -1
  {
    var lines := Split(content);
    var n := searchString;
    forall k | 0 <= k < |lines|
      ensures Contains(lines[k], n) ==> exists t :: OccursAt(lines[k], n, t)
    {
      ContainsIff(lines[k], n);
    }
    forall k, t, j | 0 <= k < |lines| && OccursAt(lines[k], n, t) && 0 <= j < |n|
      ensures lines[k][t + j] == n[j]
    {
      assert lines[k][t..t + |n|][j] == n[j];
    }
    SplitNoNewline(content);
  }

  // ---------------------------------------------------------------------
  // checkForMissingTags

  /** The tags every page is expected to hold, in the order they are checked. */
  const EssentialTags: seq<string> := ["header", "footer", "main", "nav"]

  /** $(tag).length === 0 */
  predicate TagMissing(doc: Document, tag: string) {
    |Select(doc, tag)| == 0
  }

  function TagFinding(filePath: string, fileName: string, content: string, tag: string): Finding {
    Finding(filePath, fileName, MissingTag, "Missing <" + tag + "> tag in " + fileName + ".",
      Line(LineOf(tag, content)))
  }

  /** The findings for the tags of a list that the page lacks, in list order. */
  function TagFindingsOf(filePath: string, fileName: string, doc: Document, content: string, tags: seq<string>): seq<Finding> {
    KeepMap(tags, t => TagMissing(doc, t), t => TagFinding(filePath, fileName, content, t))
  }

  function MissingTagFindings(filePath: string, fileName: string, doc: Document, content: string): seq<Finding> {
    TagFindingsOf(filePath, fileName, doc, content, EssentialTags)
  }

  lemma TagStep(filePath: string, fileName: string, doc: Document, content: string, tags: seq<string>, g: nat)
    requires g < |tags|
    ensures TagFindingsOf(filePath, fileName, doc, content, tags[..g + 1])
      == TagFindingsOf(filePath, fileName, doc, content, tags[..g])
        + (if TagMissing(doc, tags[g]) then [TagFinding(filePath, fileName, content, tags[g])] else [])
  {
    assert tags[..g + 1][..g] == tags[..g];
  }

  /** At most four findings, one for each essential tag that no element of
      the page carries, and one for every such tag. */
  lemma MissingTagsExact(filePath: string, fileName: string, doc: Document, content: string)
    ensures |MissingTagFindings(filePath, fileName, doc, content)| <= 4
    ensures forall f :: f in MissingTagFindings(filePath, fileName, doc, content) <==>
      exists k :: 0 <= k < 4 && TagMissing(doc, EssentialTags[k])
        && f == TagFinding(filePath, fileName, content, EssentialTags[k])
  {
    var keep := t => TagMissing(doc, t);
    var f := t => TagFinding(filePath, fileName, content, t);
    KeepMapSound(EssentialTags, keep, f);
    KeepMapComplete(EssentialTags, keep, f);
  }

  /** A tag is missing exactly when no element of the page has it. */
  lemma TagMissingIff(doc: Document, tag: string)
    ensures TagMissing(doc, tag) <==> forall k :: 0 <= k < |doc| ==> doc[k].tag != tag
  {
    SelectEmptyIff(doc, tag);
  }

  /** The findings keep the fixed order header, footer, main, nav: on a page
      with none of them, all four come out in that order. */
  lemma MissingTagsOrder(filePath: string, fileName: string, doc: Document, content: string)
    requires forall k :: 0 <= k < 4 ==> TagMissing(doc, EssentialTags[k])
    ensures |MissingTagFindings(filePath, fileName, doc, content)| == 4
    ensures forall k :: 0 <= k < 4 ==>
      MissingTagFindings(filePath, fileName, doc, content)[k] == TagFinding(filePath, fileName, content, EssentialTags[k])
  {
    var keep := t => TagMissing(doc, t);
    var f := t => TagFinding(filePath, fileName, content, t);
    KeepMapAll(EssentialTags, keep, f);
  }

  /** The record a tag contributes: one when the page lacks it, none otherwise. */
  function TagRecords(filePath: string, fileName: string, doc: Document, content: string, tag: string): seq<Finding> {
    if TagMissing(doc, tag) then [TagFinding(filePath, fileName, content, tag)] else []
  }

  /** On any page, the findings are those of the missing tags among header,
      footer, main and nav, in that order. */
  lemma MissingTagsListed(filePath: string, fileName: string, doc: Document, content: string)
    ensures MissingTagFindings(filePath, fileName, doc, content)
      == TagRecords(filePath, fileName, doc, content, "header")
        + TagRecords(filePath, fileName, doc, content, "footer")
        + TagRecords(filePath, fileName, doc, content, "main")
        + TagRecords(filePath, fileName, doc, content, "nav")
  {
    var tags := EssentialTags;
    var h := TagRecords(filePath, fileName, doc, content, "header");
    var f := TagRecords(filePath, fileName, doc, content, "footer");
    var m := TagRecords(filePath, fileName, doc, content, "main");
    var n := TagRecords(filePath, fileName, doc, content, "nav");
    assert tags[0] == "header" && tags[1] == "footer" && tags[2] == "main" && tags[3] == "nav";
    assert tags[..0] == [];
    TagStep(filePath, fileName, doc, content, tags, 0);
    assert TagFindingsOf(filePath, fileName, doc, content, tags[..1]) == h;
    TagStep(filePath, fileName, doc, content, tags, 1);
    assert TagFindingsOf(filePath, fileName, doc, content, tags[..2]) == h + f;
    TagStep(filePath, fileName, doc, content, tags, 2);
    assert TagFindingsOf(filePath, fileName, doc, content, tags[..3]) == h + f + m;
    TagStep(filePath, fileName, doc, content, tags, 3);
    assert tags[..4] == tags;
  }

  /** The forEach callback for one tag. */
  method VisitTag(doc: Document, warnings: WarningList, filePath: string, fileName: string, content: string, tag: string)
    modifies warnings
    ensures warnings.items == old(warnings.items)
      + (if TagMissing(doc, tag) then [TagFinding(filePath, fileName, content, tag)] else [])
  {
    if |Select(doc, tag)| == 0 {
      var lineNumber := FindLineNumber(tag, content);
      warnings.Push(Finding(filePath, fileName, MissingTag, "Missing <" + tag + "> tag in " + fileName + ".",
        Line(lineNumber)));
    }
  }

  /** checkForMissingTags($, warnings, filePath, fileName, content) */
  method CheckForMissingTags(doc: Document, warnings: WarningList, filePath: string, fileName: string, content: string)
    modifies warnings
    ensures warnings.items == old(warnings.items) + MissingTagFindings(filePath, fileName, doc, content)
  {
    var tags := EssentialTags;
    for g := 0 to |tags|
      invariant warnings.items == old(warnings.items) + TagFindingsOf(filePath, fileName, doc, content, tags[..g])
    {
      TagStep(filePath, fileName, doc, content, tags, g);
      VisitTag(doc, warnings, filePath, fileName, content, tags[g]);
      AppendAssoc(old(warnings.items), TagFindingsOf(filePath, fileName, doc, content, tags[..g]),
        if TagMissing(doc, tags[g]) then [TagFinding(filePath, fileName, content, tags[g])] else []);
    }
    assert tags[..|tags|] == tags;
  }

  // ---------------------------------------------------------------------
  // checkForMissingAltAttributes

  /** The record for an image without alt text; the line is that of the first
      line holding the src (or the placeholder) text, -1 when none does. */
  function AltFinding(filePath: string, fileName: string, content: string, e: Element): Finding {
    Finding(filePath, fileName, MissingAlt,
      "Image with src '" + GlobalFunction.Src(e) + "' in " + fileName + " is missing alt text.",
      Line(LineOf(GlobalFunction.Src(e), content)))
  }

  function AltFindingsOf(filePath: string, fileName: string, content: string, imgs: seq<Element>): seq<Finding> {
    KeepMap(imgs, GlobalFunction.AltMissing, e => AltFinding(filePath, fileName, content, e))
  }

  /** The findings of the rule for a page: one per image without alt text, in
      document order. */
  function AltFindings(filePath: string, fileName: string, doc: Document, content: string): seq<Finding> {
    AltFindingsOf(filePath, fileName, content, Select(doc, "img"))
  }

  lemma AltStep(filePath: string, fileName: string, content: string, imgs: seq<Element>, j: nat)
    requires j < |imgs|
    ensures AltFindingsOf(filePath, fileName, content, imgs[..j + 1])
      == AltFindingsOf(filePath, fileName, content, imgs[..j])
        + (if GlobalFunction.AltMissing(imgs[j]) then [AltFinding(filePath, fileName, content, imgs[j])] else [])
  {
    assert imgs[..j + 1][..j] == imgs[..j];
  }

  /** Exactly one finding per image whose alt is absent or white space only;
      no line marker exempts an image here. */
  lemma AltExact(filePath: string, fileName: string, content: string, imgs: seq<Element>)
    ensures forall f :: f in AltFindingsOf(filePath, fileName, content, imgs) <==>
      exists k :: 0 <= k < |imgs| && GlobalFunction.AltMissing(imgs[k]) && f == AltFinding(filePath, fileName, content, imgs[k])
  {
    var f := e => AltFinding(filePath, fileName, content, e);
    KeepMapSound(imgs, GlobalFunction.AltMissing, f);
    KeepMapComplete(imgs, GlobalFunction.AltMissing, f);
  }

  /** As many findings as there are images without alt text. */
  lemma AltCount(filePath: string, fileName: string, content: string, imgs: seq<Element>)
    ensures |AltFindingsOf(filePath, fileName, content, imgs)| == |Accepted(imgs, GlobalFunction.AltMissing)|
  {
    KeepMapCount(imgs, GlobalFunction.AltMissing, e => AltFinding(filePath, fileName, content, e));
  }

  /** The each callback for one image. */
  method VisitImage(el: Element, warnings: WarningList, filePath: string, fileName: string, content: string)
    modifies warnings
    ensures warnings.items == old(warnings.items)
      + (if GlobalFunction.AltMissing(el) then [AltFinding(filePath, fileName, content, el)] else [])
  {
    var alt := Attr(el, "alt");
    var src := GlobalFunction.Src(el);
    if alt.None? || Trim(alt.value) == [] {
      var lineNumber := FindLineNumber(src, content);
      warnings.Push(Finding(filePath, fileName, MissingAlt,
        "Image with src '" + src + "' in " + fileName + " is missing alt text.", Line(lineNumber)));
    }
  }

  /** checkForMissingAltAttributes($, warnings, filePath, fileName, content) */
  method CheckForMissingAltAttributes(doc: Document, warnings: WarningList, filePath: string, fileName: string, content: string)
    modifies warnings
    ensures warnings.items == old(warnings.items) + AltFindings(filePath, fileName, doc, content)
  {
    var imgs := Select(doc, "img");
    for j := 0 to |imgs|
      invariant warnings.items == old(warnings.items) + AltFindingsOf(filePath, fileName, content, imgs[..j])
    {
      AltStep(filePath, fileName, content, imgs, j);
      VisitImage(imgs[j], warnings, filePath, fileName, content);
      AppendAssoc(old(warnings.items), AltFindingsOf(filePath, fileName, content, imgs[..j]),
        if GlobalFunction.AltMissing(imgs[j]) then [AltFinding(filePath, fileName, content, imgs[j])] else []);
    }
    assert imgs[..|imgs|] == imgs;
  }

  // ---------------------------------------------------------------------
  // checkForBrokenLinks

  /** href && href.startsWith("http") */
  predicate IsHttpLink(e: Element) {
    Attr(e, "href").Some? && StartsWith(Attr(e, "href").value, "http")
  }

  /** The hrefs of the anchors that are probed, in document order. */
  function LinksOf(anchors: seq<Element>): seq<string> {
    KeepMap(anchors, IsHttpLink, GlobalFunction.Href)
  }

  function Links(doc: Document): seq<string> {
    LinksOf(Select(doc, "a"))
  }

  lemma LinksStep(anchors: seq<Element>, j: nat)
    requires j < |anchors|
    ensures LinksOf(anchors[..j + 1]) == LinksOf(anchors[..j]) + (if IsHttpLink(anchors[j]) then [GlobalFunction.Href(anchors[j])] else [])
  {
    assert anchors[..j + 1][..j] == anchors[..j];
  }

  /** Exactly the present hrefs that start with "http", of anchors of the page. */
  lemma LinksSpec(doc: Document)
    ensures forall l :: l in Links(doc) <==>
      exists e :: e in doc && e.tag == "a" && Attr(e, "href") == Some(l) && StartsWith(l, "http")
  {
    var anchors := Select(doc, "a");
    SelectSpec(doc, "a");
    KeepMapSound(anchors, IsHttpLink, GlobalFunction.Href);
    KeepMapComplete(anchors, IsHttpLink, GlobalFunction.Href);
    forall l ensures l in Links(doc) <==>
      exists e :: e in doc && e.tag == "a" && Attr(e, "href") == Some(l) && StartsWith(l, "http")
    {
      if exists e :: e in doc && e.tag == "a" && Attr(e, "href") == Some(l) && StartsWith(l, "http") {
        var e :| e in doc && e.tag == "a" && Attr(e, "href") == Some(l) && StartsWith(l, "http");
        var k :| 0 <= k < |anchors| && anchors[k] == e;
        assert IsHttpLink(anchors[k]);
      }
    }
  }

  function BrokenFinding(filePath: string, fileName: string, content: string, link: string): Finding {
    Finding(filePath, fileName, BrokenLink, "Broken link found: " + link + " in " + fileName,
      Line(LineOf(link, content)))
  }

  /** The findings for the links the probe rejects; reachable stands for the
      HTTP GET succeeding. */
  function BrokenFindingsOf(filePath: string, fileName: string, content: string, links: seq<string>,
                            reachable: string -> bool): seq<Finding> {
    KeepMap(links, l => !reachable(l), l => BrokenFinding(filePath, fileName, content, l))
  }

  function BrokenLinkFindings(filePath: string, fileName: string, doc: Document, content: string,
                              reachable: string -> bool): seq<Finding> {
    BrokenFindingsOf(filePath, fileName, content, Links(doc), reachable)
  }

  lemma BrokenStep(filePath: string, fileName: string, content: string, links: seq<string>,
                   reachable: string -> bool, j: nat)
    requires j < |links|
    ensures BrokenFindingsOf(filePath, fileName, content, links[..j + 1], reachable)
      == BrokenFindingsOf(filePath, fileName, content, links[..j], reachable)
        + (if !reachable(links[j]) then [BrokenFinding(filePath, fileName, content, links[j])] else [])
  {
    assert links[..j + 1][..j] == links[..j];
  }

  /** Every finding is that of a link that fails the probe. */
  lemma BrokenSound(filePath: string, fileName: string, content: string, links: seq<string>, reachable: string -> bool)
    ensures forall x :: x in BrokenFindingsOf(filePath, fileName, content, links, reachable) ==>
      exists l :: l in links && !reachable(l) && x == BrokenFinding(filePath, fileName, content, l)
  {
    var keep := l => !reachable(l);
    var f := l => BrokenFinding(filePath, fileName, content, l);
    KeepMapSound(links, keep, f);
    forall x | x in BrokenFindingsOf(filePath, fileName, content, links, reachable)
      ensures exists l :: l in links && !reachable(l) && x == BrokenFinding(filePath, fileName, content, l)
    {
      var k :| 0 <= k < |links| && keep(links[k]) && x == f(links[k]);
      assert links[k] in links;
    }
  }

  /** Every link that fails the probe has its finding. */
  lemma BrokenComplete(filePath: string, fileName: string, content: string, links: seq<string>, reachable: string -> bool)
    ensures forall l :: l in links && !reachable(l) ==>
      BrokenFinding(filePath, fileName, content, l) in BrokenFindingsOf(filePath, fileName, content, links, reachable)
  {
    var keep := l => !reachable(l);
    var f := l => BrokenFinding(filePath, fileName, content, l);
    KeepMapComplete(links, keep, f);
    forall l | l in links && !reachable(l)
      ensures BrokenFinding(filePath, fileName, content, l) in BrokenFindingsOf(filePath, fileName, content, links, reachable)
    {
      var k :| 0 <= k < |links| && links[k] == l;
      assert keep(links[k]);
    }
  }

  /** As a set, the findings are those of the probed links that fail the probe. */
  lemma BrokenLinksExact(filePath: string, fileName: string, doc: Document, content: string, reachable: string -> bool)
    ensures (set f | f in BrokenLinkFindings(filePath, fileName, doc, content, reachable))
      == (set l | l in Links(doc) && !reachable(l) :: BrokenFinding(filePath, fileName, content, l))
  {
    BrokenSound(filePath, fileName, content, Links(doc), reachable);
    BrokenComplete(filePath, fileName, content, Links(doc), reachable);
  }

  /** The each callback that gathers the links to probe. */
  method CollectLinks(anchors: seq<Element>) returns (links: seq<string>)
    ensures links == LinksOf(anchors)
  {
    links := [];
    for j := 0 to |anchors|
      invariant links == LinksOf(anchors[..j])
    {
      LinksStep(anchors, j);
      if IsHttpLink(anchors[j]) {
        links := links + [GlobalFunction.Href(anchors[j])];
      }
    }
    assert anchors[..|anchors|] == anchors;
  }

  /** The catch handler of one probe. */
  method ProbeLink(link: string, warnings: WarningList, filePath: string, fileName: string, content: string,
                   reachable: string -> bool)
    modifies warnings
    ensures warnings.items == old(warnings.items)
      + (if !reachable(link) then [BrokenFinding(filePath, fileName, content, link)] else [])
  {
    if !reachable(link) {
      var lineNumber := FindLineNumber(link, content);
      warnings.Push(Finding(filePath, fileName, BrokenLink, "Broken link found: " + link + " in " + fileName,
        Line(lineNumber)));
    }
  }

  /** checkForBrokenLinks($, warnings, filePath, fileName, content), with the
      probes settled one after another in link order. */
  method CheckForBrokenLinks(doc: Document, warnings: WarningList, filePath: string, fileName: string, content: string,
                             reachable: string -> bool)
    modifies warnings
    ensures warnings.items == old(warnings.items) + BrokenLinkFindings(filePath, fileName, doc, content, reachable)
  {
    var links := CollectLinks(Select(doc, "a"));
    for j := 0 to |links|
      invariant warnings.items == old(warnings.items) + BrokenFindingsOf(filePath, fileName, content, links[..j], reachable)
    {
      BrokenStep(filePath, fileName, content, links, reachable, j);
      ProbeLink(links[j], warnings, filePath, fileName, content, reachable);
      AppendAssoc(old(warnings.items), BrokenFindingsOf(filePath, fileName, content, links[..j], reachable),
        if !reachable(links[j]) then [BrokenFinding(filePath, fileName, content, links[j])] else []);
    }
    assert links[..|links|] == links;
  }

  // ---------------------------------------------------------------------
  // getReactFiles

  /** The extensions of the files a project check reads. */
  predicate IsCheckedFile(p: string) {
    EndsWith(p, ".js") || EndsWith(p, ".jsx") || EndsWith(p, ".php") || EndsWith(p, ".html")
  }

  /** The files the walk collects for one entry of dir's listing: a file with
      a checked extension, or everything found beneath a directory. */
  function EntryFiles(dir: string, e: Entry): seq<string>
    decreases e
  {
    match e
    case File(name) => if IsCheckedFile(JoinPath(dir, name)) then [JoinPath(dir, name)] else []
    case Dir(name, items) => ReactFiles(JoinPath(dir, name), items)
  }

  /** getReactFiles(dir) on a listing: depth first, in listing order. */
  function ReactFiles(dir: string, items: seq<Entry>): seq<string>
    decreases items
  {
    if |items| == 0 then []
    else ReactFiles(dir, items[..|items| - 1]) + EntryFiles(dir, items[|items| - 1])
  }

  lemma ReactFilesStep(dir: string, items: seq<Entry>, i: nat)
    requires i < |items|
    ensures ReactFiles(dir, items[..i + 1]) == ReactFiles(dir, items[..i]) + EntryFiles(dir, items[i])
  {
    assert items[..i + 1][..i] == items[..i];
  }

  /** An independent description of the collected paths: a file entry with a
      checked extension, reached through any directories at all. */
  predicate EntryHolds(dir: string, e: Entry, p: string)
    decreases e
  {
    match e
    case File(name) => p == JoinPath(dir, name) && IsCheckedFile(p)
    case Dir(name, items) => Holds(JoinPath(dir, name), items, p)
  }

  predicate Holds(dir: string, items: seq<Entry>, p: string)
    decreases items
  {
    exists k :: 0 <= k < |items| && EntryHolds(dir, items[k], p)
  }

  /** The walk collects exactly the reachable files with a checked extension;
      it enters every directory, since this walk has no ignore list. */
  lemma ReactFilesHold(dir: string, items: seq<Entry>, p: string)
    ensures p in ReactFiles(dir, items) <==> Holds(dir, items, p)
  {
    ReactFilesSound(dir, items, p);
    ReactFilesComplete(dir, items, p);
  }

  lemma {:induction false} ReactFilesSound(dir: string, items: seq<Entry>, p: string)
    ensures p in ReactFiles(dir, items) ==> Holds(dir, items, p)
    decreases items
  {
    if |items| > 0 {
      var n := |items| - 1;
      var init := items[..n];
      if p in ReactFiles(dir, init) {
        ReactFilesSound(dir, init, p);
        var k :| 0 <= k < |init| && EntryHolds(dir, init[k], p);
        assert init[k] == items[k];
      } else if p in EntryFiles(dir, items[n]) {
        EntryFilesSound(dir, items[n], p);
      }
    }
  }

  lemma {:induction false} EntryFilesSound(dir: string, e: Entry, p: string)
    ensures p in EntryFiles(dir, e) ==> EntryHolds(dir, e, p)
    decreases e
  {
    match e
    case File(_) =>
    case Dir(name, items) =>
      ReactFilesSound(JoinPath(dir, name), items, p);
  }

  lemma {:induction false} ReactFilesComplete(dir: string, items: seq<Entry>, p: string)
    ensures Holds(dir, items, p) ==> p in ReactFiles(dir, items)
    decreases items
  {
    if Holds(dir, items, p) {
      var n := |items| - 1;
      var init := items[..n];
      var k :| 0 <= k < |items| && EntryHolds(dir, items[k], p);
      if k < n {
        assert init[k] == items[k];
        ReactFilesComplete(dir, init, p);
      } else {
        EntryFilesComplete(dir, items[n], p);
      }
    }
  }

  lemma {:induction false} EntryFilesComplete(dir: string, e: Entry, p: string)
    ensures EntryHolds(dir, e, p) ==> p in EntryFiles(dir, e)
    decreases e
  {
    match e
    case File(_) =>
    case Dir(name, items) =>
      ReactFilesComplete(JoinPath(dir, name), items, p);
  }

  /** Only paths with a checked extension are collected. */
  lemma {:induction false} ReactFilesChecked(dir: string, items: seq<Entry>)
    ensures forall p :: p in ReactFiles(dir, items) ==> IsCheckedFile(p)
    decreases items
  {
    if |items| > 0 {
      ReactFilesChecked(dir, items[..|items| - 1]);
      EntryFilesChecked(dir, items[|items| - 1]);
    }
  }

  lemma {:induction false} EntryFilesChecked(dir: string, e: Entry)
    ensures forall p :: p in EntryFiles(dir, e) ==> IsCheckedFile(p)
    decreases e
  {
    match e
    case File(_) =>
    case Dir(name, items) =>
      ReactFilesChecked(JoinPath(dir, name), items);
  }

  /** getReactFiles(directoryPath), given the listing of directoryPath in
      which each directory carries its own listing. */
  method GetReactFiles(directoryPath: string, items: seq<Entry>) returns (files: seq<string>)
    ensures files == ReactFiles(directoryPath, items)
    decreases items
  {
    files := [];
    for i := 0 to |items|
      invariant files == ReactFiles(directoryPath, items[..i])
    {
      ReactFilesStep(directoryPath, items, i);
      var item := items[i];
      var itemPath := JoinPath(directoryPath, item.name);
      if item.Dir? {
        var sub := GetReactFiles(itemPath, item.items);
        files := files + sub;
      } else if EndsWith(itemPath, ".js") || EndsWith(itemPath, ".jsx")
        || EndsWith(itemPath, ".php") || EndsWith(itemPath, ".html") {
        files := files + [itemPath];
      }
    }
    assert items[..|items|] == items;
  }

  // ---------------------------------------------------------------------
  // checkFile

  /** The one record for a page that does not exist; it carries no
      lineNumber field. */
  function NotFoundFinding(filePath: string, directoryPath: string): Finding {
    Finding(directoryPath, Basename(filePath), FileNotFound,
      "The page '" + Basename(filePath) + "' does not exist in the specified directory.", Absent)
  }

  /** The findings for a file that was read: the alt rule, then the link
      rule, on the document parse gives for its text. */
  function FileFindings(filePath: string, content: string, parse: string -> Document, reachable: string -> bool): seq<Finding> {
    var doc := parse(content);
    AltFindings(filePath, Basename(filePath), doc, content)
      + BrokenLinkFindings(filePath, Basename(filePath), doc, content, reachable)
  }

  /** What checkFile appends, or None where it throws: reading a path that
      exists but is a directory fails. */
  function CheckFileResult(files: map<string, string>, dirs: set<string>, filePath: string, directoryPath: string,
                           parse: string -> Document, reachable: string -> bool): Option<seq<Finding>> {
    if filePath !in files && filePath !in dirs then Some([NotFoundFinding(filePath, directoryPath)])
    else if filePath !in files then None
    else Some(FileFindings(filePath, files[filePath], parse, reachable))
  }

  /** A missing page gives exactly one record, filed under the directory,
      and no rule runs; reading fails exactly on a directory. */
  lemma CheckFileOutcome(files: map<string, string>, dirs: set<string>, filePath: string, directoryPath: string,
                         parse: string -> Document, reachable: string -> bool)
    ensures filePath !in files && filePath !in dirs ==>
      CheckFileResult(files, dirs, filePath, directoryPath, parse, reachable) == Some([NotFoundFinding(filePath, directoryPath)])
    ensures CheckFileResult(files, dirs, filePath, directoryPath, parse, reachable).None? <==> filePath in dirs && filePath !in files
  {
  }

  /** The not-found record carries the directory as its path and no line. */
  lemma NotFoundShape(filePath: string, directoryPath: string)
    ensures NotFoundFinding(filePath, directoryPath).kind == FileNotFound
    ensures NotFoundFinding(filePath, directoryPath).filePath == directoryPath
    ensures NotFoundFinding(filePath, directoryPath).lineNumber == Absent
  {
  }

  /** A file that was read yields only the findings of the two rules checkFile
      runs: missing alt text and broken links. */
  lemma FileFindingsKinds(filePath: string, content: string, parse: string -> Document, reachable: string -> bool)
    ensures forall f :: f in FileFindings(filePath, content, parse, reachable) ==>
      f.kind == MissingAlt || f.kind == BrokenLink
  {
    var doc := parse(content);
    var name := Basename(filePath);
    AltKinds(filePath, name, content, Select(doc, "img"));
    BrokenKinds(filePath, name, content, Links(doc), reachable);
  }

  lemma AltKinds(filePath: string, fileName: string, content: string, imgs: seq<Element>)
    ensures forall f :: f in AltFindingsOf(filePath, fileName, content, imgs) ==> f.kind == MissingAlt
  {
    AltExact(filePath, fileName, content, imgs);
  }

  lemma BrokenKinds(filePath: string, fileName: string, content: string, links: seq<string>, reachable: string -> bool)
    ensures forall f :: f in BrokenFindingsOf(filePath, fileName, content, links, reachable) ==> f.kind == BrokenLink
  {
    BrokenSound(filePath, fileName, content, links, reachable);
  }

  /** checkFile(filePath, directoryPath, warnings); failed reports that it
      threw, having appended nothing. */
  method CheckFile(disk: Disk, filePath: string, directoryPath: string, warnings: WarningList,
                   parse: string -> Document, reachable: string -> bool) returns (failed: bool)
    modifies warnings
    ensures failed <==> CheckFileResult(disk.files, disk.dirs, filePath, directoryPath, parse, reachable).None?
    ensures failed ==> warnings.items == old(warnings.items)
    ensures !failed ==> (warnings.items == old(warnings.items)
      + CheckFileResult(disk.files, disk.dirs, filePath, directoryPath, parse, reachable).value)
  {
    var fileExists := disk.Exists(filePath);
    if !fileExists {
      warnings.Push(Finding(directoryPath, Basename(filePath), FileNotFound,
        "The page '" + Basename(filePath) + "' does not exist in the specified directory.", Absent));
      return false;
    }
    var read := disk.ReadFile(filePath);
    if read.None? {
      return true;
    }
    var content := read.value;
    var doc := parse(content);
    ghost var before := warnings.items;
    CheckForMissingAltAttributes(doc, warnings, filePath, Basename(filePath), content);
    CheckForBrokenLinks(doc, warnings, filePath, Basename(filePath), content, reachable);
    AppendAssoc(before, AltFindings(filePath, Basename(filePath), doc, content),
      BrokenLinkFindings(filePath, Basename(filePath), doc, content, reachable));
    return false;
  }

  // ---------------------------------------------------------------------
  // POST /check

  /** The values the page is rendered with. */
  datatype Page = Page(message: Option<string>, warnings: seq<Finding>, warningCount: int)

  const InvalidDirectory := "Invalid directory path. Please try again."
  const CheckFailed := "An error occurred. Please try again."

  /** pageName.split(",").map((name) => name.trim()) */
  function PageNames(pageName: string): seq<string> {
    var parts := SplitOn(pageName, ',');
    seq(|parts|, k requires 0 <= k < |parts| => Trim(parts[k]))
  }

  /** The paths the page list checks: each name joined to the directory. */
  function PagePaths(directoryPath: string, pageName: string): seq<string> {
    var names := PageNames(pageName);
    seq(|names|, k requires 0 <= k < |names| => JoinPath(directoryPath, names[k]))
  }

  /** The names are the comma-separated fields of pageName, in order, one
      per field: there is one more of them than there are commas, and the
      untrimmed fields join back to pageName. */
  lemma PageNamesSpec(pageName: string)
    ensures Join(SplitOn(pageName, ','), ',') == pageName
    ensures |PageNames(pageName)| == |SplitOn(pageName, ',')|
    ensures forall k :: 0 <= k < |PageNames(pageName)| ==> PageNames(pageName)[k] == Trim(SplitOn(pageName, ',')[k])
  {
    JoinSplitOn(pageName, ',');
  }

  /** Each name is trimmed: it holds no comma and no white space at either end. */
  lemma PageNamesTrimmed(pageName: string)
    ensures forall k :: 0 <= k < |PageNames(pageName)| ==> ',' !in PageNames(pageName)[k]
    ensures forall k :: 0 <= k < |PageNames(pageName)| && |PageNames(pageName)[k]| > 0 ==>
      !IsSpace(PageNames(pageName)[k][0]) && !IsSpace(PageNames(pageName)[k][|PageNames(pageName)[k]| - 1])
  {
    var parts := SplitOn(pageName, ',');
    var names := PageNames(pageName);
    SplitOnNoSep(pageName, ',');
    forall k | 0 <= k < |names|
      ensures ',' !in names[k]
      ensures |names[k]| > 0 ==> !IsSpace(names[k][0]) && !IsSpace(names[k][|names[k]| - 1])
    {
      assert names[k] == Trim(parts[k]);
      FieldTrimmed(parts[k]);
    }
  }

  /** A comma-free field stays comma-free when trimmed, and loses its edge
      white space. */
  lemma FieldTrimmed(part: string)
    requires ',' !in part
    ensures ',' !in Trim(part)
    ensures |Trim(part)| > 0 ==> !IsSpace(Trim(part)[0]) && !IsSpace(Trim(part)[|Trim(part)| - 1])
  {
    TrimShape(part);
  }

  /** Calls over a list of paths, in order, each appending to what the ones
      before it appended; None once one of them throws. */
  function RunAll(paths: seq<string>, check: string -> Option<seq<Finding>>): Option<seq<Finding>> {
    if |paths| == 0 then Some([])
    else
      match RunAll(paths[..|paths| - 1], check)
      case None => None
      case Some(w) =>
        match check(paths[|paths| - 1])
        case None => None
        case Some(v) => Some(w + v)
  }

  lemma RunAllStep(paths: seq<string>, check: string -> Option<seq<Finding>>, i: nat)
    requires i < |paths|
    ensures RunAll(paths[..i + 1], check) ==
      match RunAll(paths[..i], check)
      case None => None
      case Some(w) =>
        match check(paths[i])
        case None => None
        case Some(v) => Some(w + v)
  {
    assert paths[..i + 1][..i] == paths[..i];
  }

  /** Once a call throws, the rest of the list changes nothing. */
  lemma {:induction false} RunAllThrown(paths: seq<string>, check: string -> Option<seq<Finding>>, i: nat)
    requires i <= |paths| && RunAll(paths[..i], check).None?
    ensures RunAll(paths, check).None?
    decreases |paths| - i
  {
    if i < |paths| {
      RunAllStep(paths, check, i);
      RunAllThrown(paths, check, i + 1);
    } else {
      assert paths[..i] == paths;
    }
  }

  /** When every call appends one record, the records are those of the
      paths, one each, in the order of the list. */
  lemma {:induction false} RunAllEach(paths: seq<string>, check: string -> Option<seq<Finding>>, g: string -> Finding)
    requires forall k :: 0 <= k < |paths| ==> check(paths[k]) == Some([g(paths[k])])
    ensures RunAll(paths, check).Some?
    ensures |RunAll(paths, check).value| == |paths|
    ensures forall k :: 0 <= k < |paths| ==> RunAll(paths, check).value[k] == g(paths[k])
  {
    if |paths| > 0 {
      var n := |paths| - 1;
      var init := paths[..n];
      assert forall k :: 0 <= k < n ==> init[k] == paths[k];
      RunAllEach(init, check, g);
      var w := RunAll(init, check).value;
      var r := w + [g(paths[n])];
      assert RunAll(paths, check) == Some(r);
      forall k | 0 <= k < |paths|
        ensures r[k] == g(paths[k])
      {
        if k < n {
          assert r[k] == w[k];
        }
      }
    }
  }

  /** The checkFile calls of the handler over a list of paths. */
  function CheckAll(files: map<string, string>, dirs: set<string>, paths: seq<string>, directoryPath: string,
                    parse: string -> Document, reachable: string -> bool): Option<seq<Finding>> {
    RunAll(paths, p => CheckFileResult(files, dirs, p, directoryPath, parse, reachable))
  }

  lemma CheckAllStep(files: map<string, string>, dirs: set<string>, paths: seq<string>, directoryPath: string,
                     parse: string -> Document, reachable: string -> bool, i: nat)
    requires i < |paths|
    ensures CheckAll(files, dirs, paths[..i + 1], directoryPath, parse, reachable) ==
      match CheckAll(files, dirs, paths[..i], directoryPath, parse, reachable)
      case None => None
      case Some(w) =>
        match CheckFileResult(files, dirs, paths[i], directoryPath, parse, reachable)
        case None => None
        case Some(v) => Some(w + v)
  {
    RunAllStep(paths, p => CheckFileResult(files, dirs, p, directoryPath, parse, reachable), i);
  }

  lemma CheckAllThrown(files: map<string, string>, dirs: set<string>, paths: seq<string>,
                       directoryPath: string, parse: string -> Document, reachable: string -> bool, i: nat)
    requires i <= |paths| && CheckAll(files, dirs, paths[..i], directoryPath, parse, reachable).None?
    ensures CheckAll(files, dirs, paths, directoryPath, parse, reachable).None?
  {
    RunAllThrown(paths, p => CheckFileResult(files, dirs, p, directoryPath, parse, reachable), i);
  }

  /** When none of the paths exists, every one of them gets its own
      not-found record, in the order of the list. */
  lemma CheckAllMissing(files: map<string, string>, dirs: set<string>, paths: seq<string>,
                        directoryPath: string, parse: string -> Document, reachable: string -> bool)
    requires forall k :: 0 <= k < |paths| ==> paths[k] !in files && paths[k] !in dirs
    ensures CheckAll(files, dirs, paths, directoryPath, parse, reachable).Some?
    ensures |CheckAll(files, dirs, paths, directoryPath, parse, reachable).value| == |paths|
    ensures forall k :: 0 <= k < |paths| ==>
      CheckAll(files, dirs, paths, directoryPath, parse, reachable).value[k] == NotFoundFinding(paths[k], directoryPath)
  {
    var check := p => CheckFileResult(files, dirs, p, directoryPath, parse, reachable);
    var g := p => NotFoundFinding(p, directoryPath);
    forall k | 0 <= k < |paths|
      ensures check(paths[k]) == Some([g(paths[k])])
    {
      CheckFileOutcome(files, dirs, paths[k], directoryPath, parse, reachable);
    }
    RunAllEach(paths, check, g);
  }

  /** The listing step of a project check: None where readdir throws
      because the path is not a directory. */
  function ProjectFiles(dirs: set<string>, directoryPath: string, listing: seq<Entry>): Option<seq<string>> {
    if directoryPath in dirs then Some(ReactFiles(directoryPath, listing)) else None
  }

  /** The page the handler renders for a request, given the disk and the
      listing of directoryPath. */
  function Respond(files: map<string, string>, dirs: set<string>, directoryPath: string, pageName: string,
                   checkType: string, listing: seq<Entry>, parse: string -> Document, reachable: string -> bool): Page {
    if directoryPath !in files && directoryPath !in dirs then Page(Some(InvalidDirectory), [], 0)
    else
      var paths := if checkType == "project" then ProjectFiles(dirs, directoryPath, listing)
        else Some(PagePaths(directoryPath, pageName));
      match paths
      case None => Page(Some(CheckFailed), [], 0)
      case Some(ps) =>
        match CheckAll(files, dirs, ps, directoryPath, parse, reachable)
        case None => Page(Some(CheckFailed), [], 0)
        case Some(w) => Page(None, w, |w|)
  }

  /** The rendered count is always the number of rendered warnings; an error
      message comes with no warnings, and a missing directory gives the
      invalid-path message. */
  lemma RespondShape(files: map<string, string>, dirs: set<string>, directoryPath: string, pageName: string,
                     checkType: string, listing: seq<Entry>, parse: string -> Document, reachable: string -> bool)
    ensures var page := Respond(files, dirs, directoryPath, pageName, checkType, listing, parse, reachable);
      page.warningCount == |page.warnings|
      && (page.message.Some? ==> (page.warnings == []
        && (page.message.value == InvalidDirectory || page.message.value == CheckFailed)))
      && (page.message == Some(InvalidDirectory) <==> directoryPath !in files && directoryPath !in dirs)
  {
  }

  /** The loop of the handler over the files to check; failed reports that
      one of the calls threw. */
  method CheckPaths(disk: Disk, paths: seq<string>, directoryPath: string, warnings: WarningList,
                    parse: string -> Document, reachable: string -> bool) returns (failed: bool)
    modifies warnings
    ensures failed <==> CheckAll(disk.files, disk.dirs, paths, directoryPath, parse, reachable).None?
    ensures !failed ==> (warnings.items == old(warnings.items)
      + CheckAll(disk.files, disk.dirs, paths, directoryPath, parse, reachable).value)
  {
    for i := 0 to |paths|
      invariant CheckAll(disk.files, disk.dirs, paths[..i], directoryPath, parse, reachable).Some?
      invariant warnings.items == old(warnings.items)
        + CheckAll(disk.files, disk.dirs, paths[..i], directoryPath, parse, reachable).value
    {
      CheckAllStep(disk.files, disk.dirs, paths, directoryPath, parse, reachable, i);
      ghost var before := CheckAll(disk.files, disk.dirs, paths[..i], directoryPath, parse, reachable).value;
      failed := CheckFile(disk, paths[i], directoryPath, warnings, parse, reachable);
      if failed {
        CheckAllThrown(disk.files, disk.dirs, paths, directoryPath, parse, reachable, i + 1);
        return;
      }
      AppendAssoc(old(warnings.items), before,
        CheckFileResult(disk.files, disk.dirs, paths[i], directoryPath, parse, reachable).value);
    }
    assert paths[..|paths|] == paths;
    return false;
  }

  /** POST /check with body { directoryPath, pageName, checkType }. */
  method Check(disk: Disk, directoryPath: string, pageName: string, checkType: string, listing: seq<Entry>,
               parse: string -> Document, reachable: string -> bool) returns (page: Page)
    ensures page == Respond(disk.files, disk.dirs, directoryPath, pageName, checkType, listing, parse, reachable)
  {
    var warnings := new WarningList();
    var directoryExists := disk.Exists(directoryPath);
    if !directoryExists {
      return Page(Some(InvalidDirectory), [], 0);
    }
    var paths: seq<string>;
    if checkType == "project" {
      if directoryPath !in disk.dirs {
        return Page(Some(CheckFailed), [], 0);
      }
      paths := GetReactFiles(directoryPath, listing);
    } else {
      paths := PagePaths(directoryPath, pageName);
    }
    var failed := CheckPaths(disk, paths, directoryPath, warnings, parse, reachable);
    if failed {
      return Page(Some(CheckFailed), [], 0);
    }
    return Page(None, warnings.items, |warnings.items|);
  }
}
