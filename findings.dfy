/** The records the auditor reports, the shared list the rules append them
    to, and the parsed document the rules query. */
module Findings {

  datatype Option<T> = None | Some(value: T)

  /** The lineNumber field: a number (-1 when a search failed), the text
      "N/A", null, or no field at all. */
  datatype LineNumber = Line(n: int) | NotApplicable | Null | Absent

  /** The type field of a finding, one constructor per label. */
  datatype Kind =
    | MissingAlt
    | InvalidMailto
    | MissingTargetBlank
    | ConsoleStatement
    | EmptyFile
    | SingleLineComment
    | MultiLineComment
    | GlobalVariableUsage
    | MissingFooter
    | MissingIndexPhp
    | MissingTag
    | BrokenLink
    | FileNotFound

  /** The text the source writes into the type field. */
  function Label(k: Kind): string {
    match k
    case MissingAlt => "⚠️ Missing alt"
    case InvalidMailto => "⚠️ Invalid mailto"
    case MissingTargetBlank => "⚠️ Missing target=\"_blank\""
    case ConsoleStatement => "⚠️ Console statement"
    case EmptyFile => "⚠️ Empty file"
    case SingleLineComment => "💬 Single-line HTML comment"
    case MultiLineComment => "📄 Multi-line HTML comment"
    case GlobalVariableUsage => "⚠️ Global variable usage"
    case MissingFooter => "⚠️ Missing footer"
    case MissingIndexPhp => "⚠️ Missing index.php"
    case MissingTag => "⚠️ Missing tag"
    case BrokenLink => "⚠️ Broken link"
    case FileNotFound => "⚠️ File not found"
  }

  datatype Finding = Finding(
    filePath: string,
    fileName: string,
    kind: Kind,
    message: string,
    lineNumber: LineNumber)

  /** The `warnings` array every rule pushes its findings onto. */
  class WarningList {
    var items: seq<Finding>

    constructor ()
      ensures items == []
    {
      items := [];
    }

    method Push(f: Finding)
      modifies this
      ensures items == old(items) + [f]
    {
      items := items + [f];
    }
  }

  /** One element of a parsed page: its tag name and its attributes, where a
      missing attribute is distinct from an empty one. */
  datatype Element = Element(tag: string, attributes: map<string, string>)

  /** A parsed page: its elements in document order. */
  type Document = seq<Element>

  /** $(el).attr(name) */
  function Attr(e: Element, name: string): Option<string> {
    if name in e.attributes then Some(e.attributes[name]) else None
  }

  /** $(tag): the elements with that tag name, in document order. */
  function Select(doc: Document, tag: string): (r: seq<Element>)
    ensures |r| <= |doc|
  {
    if |doc| == 0 then []
    else
      var r := Select(doc[..|doc| - 1], tag);
      var e := doc[|doc| - 1];
      if e.tag == tag then r + [e] else r
  }

  /** The selection holds every element with the tag and only those. */
  lemma {:induction false} SelectSpec(doc: Document, tag: string)
    ensures forall e :: e in Select(doc, tag) <==> e in doc && e.tag == tag
  {
    if |doc| > 0 {
      var init := doc[..|doc| - 1];
      SelectSpec(init, tag);
      assert doc == init + [doc[|doc| - 1]];
    }
  }

  /** $(tag).length === 0 holds exactly when no element has that tag. */
  lemma {:induction false} SelectEmptyIff(doc: Document, tag: string)
    ensures |Select(doc, tag)| == 0 <==> forall k :: 0 <= k < |doc| ==> doc[k].tag != tag
  {
    if |doc| > 0 {
      SelectEmptyIff(doc[..|doc| - 1], tag);
      var init := doc[..|doc| - 1];
      assert forall k :: 0 <= k < |doc| - 1 ==> doc[k] == init[k];
    }
  }

  /** Appending in two steps is appending once: the fact every loop that
      pushes a batch of records per step leans on. */
  lemma AppendAssoc<T>(a: seq<T>, b: seq<T>, c: seq<T>)
    ensures (a + b) + c == a + (b + c)
  {
  }

  /** The elements of xs that keep accepts, each turned into f of it, in the
      order of xs: the shape of a rule that pushes one record per element it
      flags. */
  function KeepMap<T, U>(xs: seq<T>, keep: T -> bool, f: T -> U): (r: seq<U>)
    ensures |r| <= |xs|
  {
    if |xs| == 0 then []
    else
      var init := KeepMap(xs[..|xs| - 1], keep, f);
      var x := xs[|xs| - 1];
      if keep(x) then init + [f(x)] else init
  }

  lemma KeepMapSnoc<T, U>(xs: seq<T>, x: T, keep: T -> bool, f: T -> U)
    ensures KeepMap(xs + [x], keep, f) == KeepMap(xs, keep, f) + (if keep(x) then [f(x)] else [])
  {
    assert (xs + [x])[..|xs|] == xs;
  }

  /** Every output comes from an accepted element. */
  lemma {:induction false} KeepMapSound<T, U>(xs: seq<T>, keep: T -> bool, f: T -> U)
    ensures forall y :: y in KeepMap(xs, keep, f) ==>
      exists k :: 0 <= k < |xs| && keep(xs[k]) && y == f(xs[k])
  {
    if |xs| > 0 {
      var init := xs[..|xs| - 1];
      KeepMapSound(init, keep, f);
      var x := xs[|xs| - 1];
      forall y | y in KeepMap(xs, keep, f)
        ensures exists k :: 0 <= k < |xs| && keep(xs[k]) && y == f(xs[k])
      {
        if y in KeepMap(init, keep, f) {
          var k :| 0 <= k < |init| && keep(init[k]) && y == f(init[k]);
          assert xs[k] == init[k];
        } else {
          assert keep(x) && y == f(x);
        }
      }
    }
  }

  /** Every accepted element has its output. */
  lemma {:induction false} KeepMapComplete<T, U>(xs: seq<T>, keep: T -> bool, f: T -> U)
    ensures forall k :: 0 <= k < |xs| && keep(xs[k]) ==> f(xs[k]) in KeepMap(xs, keep, f)
  {
    if |xs| > 0 {
      var init := xs[..|xs| - 1];
      KeepMapComplete(init, keep, f);
      forall k | 0 <= k < |xs| && keep(xs[k])
        ensures f(xs[k]) in KeepMap(xs, keep, f)
      {
        if k < |init| {
          assert xs[k] == init[k];
        }
      }
    }
  }

  /** When every element is accepted, the outputs are the images of all of
      them, in order. */
  lemma {:induction false} KeepMapAll<T, U>(xs: seq<T>, keep: T -> bool, f: T -> U)
    requires forall k :: 0 <= k < |xs| ==> keep(xs[k])
    ensures |KeepMap(xs, keep, f)| == |xs|
    ensures forall k :: 0 <= k < |xs| ==> KeepMap(xs, keep, f)[k] == f(xs[k])
  {
    if |xs| > 0 {
      var init := xs[..|xs| - 1];
      assert forall k :: 0 <= k < |init| ==> init[k] == xs[k];
      KeepMapAll(init, keep, f);
    }
  }

  /** The positions of xs that keep accepts. */
  function Accepted<T>(xs: seq<T>, keep: T -> bool): set<int> {
    set k | 0 <= k < |xs| && keep(xs[k])
  }

  /** One output per accepted element. */
  lemma {:induction false} KeepMapCount<T, U>(xs: seq<T>, keep: T -> bool, f: T -> U)
    ensures |KeepMap(xs, keep, f)| == |Accepted(xs, keep)|
  {
    if |xs| > 0 {
      var n := |xs| - 1;
      var init := xs[..n];
      KeepMapCount(init, keep, f);
      var before := Accepted(init, keep);
      var after := Accepted(xs, keep);
      if keep(xs[n]) {
        forall k ensures k in after <==> k in before + {n} {
          if 0 <= k < n { assert init[k] == xs[k]; }
        }
        assert after == before + {n};
      } else {
        forall k ensures k in after <==> k in before {
          if 0 <= k < n { assert init[k] == xs[k]; }
        }
        assert after == before;
      }
    }
  }
}
