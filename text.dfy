/** The JavaScript string built-ins the auditor relies on — indexOf, includes,
    startsWith, endsWith, trim, split("\n") — and the arithmetic that relates
    a character offset to the line holding it. */
module Text {

  /** Whitespace as String.prototype.trim and the regular-expression class \s
      see it: the WhiteSpace and LineTerminator code points of ECMAScript. */
  const SpaceChars: set<char> := {
    ' ', '\t', '\n', '\r', '\U{000B}', '\U{000C}', '\U{00A0}', '\U{FEFF}', '\U{1680}',
    '\U{2000}', '\U{2001}', '\U{2002}', '\U{2003}', '\U{2004}', '\U{2005}', '\U{2006}',
    '\U{2007}', '\U{2008}', '\U{2009}', '\U{200A}',
    '\U{2028}', '\U{2029}', '\U{202F}', '\U{205F}', '\U{3000}'
  }

  predicate IsSpace(c: char) {
    c in SpaceChars
  }

  predicate AllSpace(s: string) {
    forall k :: 0 <= k < |s| ==> IsSpace(s[k])
  }

  /** s.startsWith(p) */
  predicate StartsWith(s: string, p: string) {
    |p| <= |s| && s[..|p|] == p
  }

  /** s.endsWith(p) */
  predicate EndsWith(s: string, p: string) {
    |p| <= |s| && s[|s| - |p|..] == p
  }

  /** The needle n occurs in s starting at offset i. */
  predicate OccursAt(s: string, n: string, i: int) {
    0 <= i && i + |n| <= |s| && s[i..i + |n|] == n
  }

  /** The first occurrence of n in s at an offset of at least i, or -1. */
  function FindFrom(s: string, n: string, i: nat): (r: int)
    requires i <= |s|
    ensures r == -1 || (i <= r <= |s| && OccursAt(s, n, r))
    decreases |s| - i
  {
    if OccursAt(s, n, i) then i
    else if i == |s| then -1
    else FindFrom(s, n, i + 1)
  }

  /** The occurrence found is the first one from i on, and -1 means there is
      none. */
  lemma {:induction false} FindFromFirst(s: string, n: string, i: nat)
    requires i <= |s|
    ensures FindFrom(s, n, i) == -1 ==> forall j :: i <= j <= |s| ==> !OccursAt(s, n, j)
    ensures FindFrom(s, n, i) != -1 ==> forall j :: i <= j < FindFrom(s, n, i) ==> !OccursAt(s, n, j)
    decreases |s| - i
  {
    if !OccursAt(s, n, i) && i < |s| {
      FindFromFirst(s, n, i + 1);
    }
  }

  /** s.indexOf(n, from): a start offset beyond the end is clamped to |s|. */
  function IndexOf(s: string, n: string, from: nat): (r: int)
  {
    FindFrom(s, n, if from <= |s| then from else |s|)
  }

  /** The first occurrence lies no later than any occurrence. */
  lemma IndexOfFirst(s: string, n: string, j: int)
    requires OccursAt(s, n, j)
    ensures IndexOf(s, n, 0) != -1 && IndexOf(s, n, 0) <= j
  {
    FindFromFirst(s, n, 0);
  }

  /** s.includes(n) */
  predicate Contains(s: string, n: string) {
    IndexOf(s, n, 0) != -1
  }

  lemma ContainsIff(s: string, n: string)
    ensures Contains(s, n) <==> exists i :: OccursAt(s, n, i)
  {
    FindFromFirst(s, n, 0);
    if exists i :: OccursAt(s, n, i) {
      var i :| OccursAt(s, n, i);
      assert 0 <= i <= |s|;
    }
  }

  /** A one-character needle occurs exactly where that character sits. */
  lemma OccursAtChar(s: string, c: char, i: int)
    ensures OccursAt(s, [c], i) <==> 0 <= i < |s| && s[i] == c
  {
    if 0 <= i < |s| {
      assert s[i..i + 1] == [s[i]];
    }
  }

  /** The first offset of at least i that holds c, or -1. */
  function CharFrom(s: string, c: char, i: nat): (r: int)
    requires i <= |s|
    ensures r == -1 || (i <= r < |s| && s[r] == c)
    ensures forall k :: i <= k < (if r == -1 then |s| else r) ==> s[k] != c
    decreases |s| - i
  {
    if i == |s| then -1 else if s[i] == c then i else CharFrom(s, c, i + 1)
  }

  /** When c sits at j, the search from i <= j finds a c no later than j. */
  lemma CharFromFinds(s: string, c: char, i: nat, j: nat)
    requires i <= j < |s| && s[j] == c
    ensures CharFrom(s, c, i) != -1 && CharFrom(s, c, i) <= j
  {
  }

  /** The search finds the first c at or after i, and none when there is none. */
  lemma {:induction false} CharFromIs(s: string, c: char, i: nat, r: int)
    requires i <= |s|
    requires r == -1 || (i <= r < |s| && s[r] == c)
    requires forall k :: i <= k < (if r == -1 then |s| else r) ==> s[k] != c
    ensures CharFrom(s, c, i) == r
    decreases |s| - i
  {
    if i < |s| && s[i] != c {
      CharFromIs(s, c, i + 1, r);
    }
  }

  /** An occurrence inside a slice of s is an occurrence in s. */
  lemma OccursInSlice(s: string, lo: int, hi: int, n: string, t: int)
    requires 0 <= lo <= hi <= |s|
    requires OccursAt(s[lo..hi], n, t)
    ensures OccursAt(s, n, lo + t)
  {
    forall j | 0 <= j < |n| ensures s[lo + t + j] == n[j] {
      assert s[lo..hi][t..t + |n|][j] == n[j];
    }
  }

  /** s.trimStart() */
  function TrimStart(s: string): (r: string)
    ensures |r| <= |s| && r == s[|s| - |r|..]
    ensures forall k :: 0 <= k < |s| - |r| ==> IsSpace(s[k])
    ensures |r| > 0 ==> !IsSpace(r[0])
  {
    if |s| > 0 && IsSpace(s[0]) then
      var t := s[1..];
      var r := TrimStart(t);
      assert t[|t| - |r|..] == s[|s| - |r|..];
      assert forall k :: 0 < k < |s| ==> t[k - 1] == s[k];
      r
    else s
  }

  /** s.trimEnd() */
  function TrimEnd(s: string): (r: string)
    ensures |r| <= |s| && r == s[..|r|]
    ensures forall k :: |r| <= k < |s| ==> IsSpace(s[k])
    ensures |r| > 0 ==> !IsSpace(r[|r| - 1])
  {
    if |s| > 0 && IsSpace(s[|s| - 1]) then TrimEnd(s[..|s| - 1]) else s
  }

  /** s.trim() */
  function Trim(s: string): string {
    TrimEnd(TrimStart(s))
  }

  /** trim() leaves no white space at either end and keeps only characters
      of its input. */
  lemma TrimShape(s: string)
    ensures |Trim(s)| > 0 ==> !IsSpace(Trim(s)[0]) && !IsSpace(Trim(s)[|Trim(s)| - 1])
    ensures forall c :: c in Trim(s) ==> c in s
  {
    var a := TrimStart(s);
    var r := TrimEnd(a);
    if |r| > 0 {
      assert r[0] == a[0];
    }
    assert forall c :: c in r ==> c in a;
  }

  lemma TrimStartAllSpace(s: string)
    requires AllSpace(s)
    ensures TrimStart(s) == []
  {
  }

  lemma TrimKeeps(s: string, k: nat)
    requires k < |s| && !IsSpace(s[k])
    ensures Trim(s) != []
  {
    var a := TrimStart(s);
    var d := |s| - |a|;
    assert d <= k;
    assert a[k - d] == s[k];
    var r := TrimEnd(a);
    assert k - d < |r|;
  }

  /** trim() yields the empty string exactly on all-whitespace input. */
  lemma TrimEmptyIff(s: string)
    ensures Trim(s) == [] <==> AllSpace(s)
  {
    if AllSpace(s) {
      TrimStartAllSpace(s);
    } else {
      var k :| 0 <= k < |s| && !IsSpace(s[k]);
      TrimKeeps(s, k);
    }
  }

  /** The count of "\n" among the first i characters of s. */
  function NLBefore(s: string, i: nat): nat
    requires i <= |s|
  {
    if i == 0 then 0 else NLBefore(s, i - 1) + (if s[i - 1] == '\n' then 1 else 0)
  }

  /** The count of "\n" characters in s. */
  function CountNL(s: string): nat {
    NLBefore(s, |s|)
  }

  lemma {:induction false} NLBeforeMonotone(s: string, i: nat, j: nat)
    requires i <= j <= |s|
    ensures NLBefore(s, i) <= NLBefore(s, j)
    decreases j - i
  {
    if i < j {
      NLBeforeMonotone(s, i, j - 1);
    }
  }

  /** The contrapositive form of monotonicity, usable without an order. */
  lemma NLBeforeOrder(s: string, i: nat, j: nat)
    requires i <= |s| && j <= |s|
    ensures j <= i ==> NLBefore(s, j) <= NLBefore(s, i)
  {
    if j <= i {
      NLBeforeMonotone(s, j, i);
    }
  }

  /** Without a "\n" between i and j the count does not change. */
  lemma {:induction false} NLBeforeFlat(s: string, i: nat, j: nat)
    requires i <= j <= |s|
    requires forall m :: i <= m < j ==> s[m] != '\n'
    ensures NLBefore(s, j) == NLBefore(s, i)
    decreases j - i
  {
    if i < j {
      NLBeforeFlat(s, i, j - 1);
    }
  }

  /** The count depends only on the characters counted. */
  lemma {:induction false} NLBeforeSame(s: string, t: string, i: nat)
    requires i <= |s| && i <= |t|
    requires forall m :: 0 <= m < i ==> s[m] == t[m]
    ensures NLBefore(s, i) == NLBefore(t, i)
  {
    if i > 0 {
      NLBeforeSame(s, t, i - 1);
    }
  }

  /** The offset of the first sep at or after i, or |s| when there is none. */
  function NextSep(s: string, sep: char, i: nat): (p: nat)
    requires i <= |s|
    ensures i <= p <= |s|
    ensures p < |s| ==> s[p] == sep
    decreases |s| - i
  {
    if i == |s| || s[i] == sep then i else NextSep(s, sep, i + 1)
  }

  /** No separator lies between i and NextSep(s, sep, i). */
  lemma {:induction false} NextSepClear(s: string, sep: char, i: nat)
    requires i <= |s|
    ensures forall m :: i <= m < NextSep(s, sep, i) ==> s[m] != sep
    decreases |s| - i
  {
    if i < |s| && s[i] != sep {
      NextSepClear(s, sep, i + 1);
    }
  }

  /** The pieces of s[i..], as split(sep) cuts them. */
  function SplitFrom(s: string, sep: char, i: nat): (pieces: seq<string>)
    requires i <= |s|
    ensures |pieces| >= 1
    decreases |s| - i
  {
    var p := NextSep(s, sep, i);
    if p == |s| then [s[i..]] else [s[i..p]] + SplitFrom(s, sep, p + 1)
  }

  /** s.split(sep) for a one-character separator. */
  function SplitOn(s: string, sep: char): seq<string> {
    SplitFrom(s, sep, 0)
  }

  /** content.split("\n") */
  function Split(s: string): seq<string> {
    SplitFrom(s, '\n', 0)
  }

  lemma {:induction false} SplitFromLength(s: string, i: nat)
    requires i <= |s|
    ensures NLBefore(s, i) <= NLBefore(s, |s|)
    ensures |SplitFrom(s, '\n', i)| == NLBefore(s, |s|) - NLBefore(s, i) + 1
    decreases |s| - i
  {
    var p := NextSep(s, '\n', i);
    NextSepClear(s, '\n', i);
    NLBeforeFlat(s, i, p);
    if p < |s| {
      SplitFromLength(s, p + 1);
    }
  }

  /** split("\n") yields one line more than there are newlines. */
  lemma SplitLength(s: string)
    ensures |Split(s)| == CountNL(s) + 1
  {
    SplitFromLength(s, 0);
  }

  /** The lines of the text before offset i number LineAt(s, i). */
  lemma PrefixLines(s: string, i: nat)
    requires i <= |s|
    ensures |Split(s[..i])| == LineAt(s, i)
  {
    SplitLength(s[..i]);
    NLBeforeSame(s[..i], s, i);
  }

  lemma {:induction false} SplitFromNoSep(s: string, sep: char, i: nat)
    requires i <= |s|
    ensures forall k :: 0 <= k < |SplitFrom(s, sep, i)| ==> sep !in SplitFrom(s, sep, i)[k]
    decreases |s| - i
  {
    var p := NextSep(s, sep, i);
    NextSepClear(s, sep, i);
    assert sep !in s[i..p];
    if p < |s| {
      SplitFromNoSep(s, sep, p + 1);
    }
  }

  /** No piece of split(sep) holds the separator. */
  lemma SplitOnNoSep(s: string, sep: char)
    ensures forall k :: 0 <= k < |SplitOn(s, sep)| ==> sep !in SplitOn(s, sep)[k]
  {
    SplitFromNoSep(s, sep, 0);
  }

  /** No line of split("\n") holds a "\n". */
  lemma SplitNoNewline(s: string)
    ensures forall k :: 0 <= k < |Split(s)| ==> '\n' !in Split(s)[k]
  {
    SplitFromNoSep(s, '\n', 0);
  }

  /** pieces.join(sep) */
  function Join(pieces: seq<string>, sep: char): string {
    if |pieces| == 0 then []
    else if |pieces| == 1 then pieces[0]
    else pieces[0] + [sep] + Join(pieces[1..], sep)
  }

  lemma JoinCons(a: string, rest: seq<string>, sep: char)
    requires |rest| >= 1
    ensures Join([a] + rest, sep) == a + [sep] + Join(rest, sep)
  {
    assert ([a] + rest)[1..] == rest;
  }

  /** Gluing the piece before a separator to the join of what follows it. */
  lemma JoinPieceStep(s: string, sep: char, i: nat, p: nat, rest: seq<string>)
    requires i <= p < |s| && s[p] == sep && |rest| >= 1
    requires Join(rest, sep) == s[p + 1..]
    ensures Join([s[i..p]] + rest, sep) == s[i..]
  {
    JoinCons(s[i..p], rest, sep);
    assert s[i..] == s[i..p] + [sep] + s[p + 1..];
  }

  lemma {:induction false} JoinSplitFrom(s: string, sep: char, i: nat)
    requires i <= |s|
    ensures Join(SplitFrom(s, sep, i), sep) == s[i..]
    decreases |s| - i
  {
    var p := NextSep(s, sep, i);
    if p < |s| {
      var rest := SplitFrom(s, sep, p + 1);
      assert SplitFrom(s, sep, i) == [s[i..p]] + rest;
      JoinSplitFrom(s, sep, p + 1);
      JoinPieceStep(s, sep, i, p, rest);
    } else {
      assert SplitFrom(s, sep, i) == [s[i..]];
    }
  }

  /** Splitting on sep and joining with sep gives the text back. */
  lemma JoinSplitOn(s: string, sep: char)
    ensures Join(SplitOn(s, sep), sep) == s
  {
    JoinSplitFrom(s, sep, 0);
  }

  /** Splitting on "\n" and joining with "\n" gives the text back. */
  lemma JoinSplit(s: string)
    ensures Join(Split(s), '\n') == s
  {
    JoinSplitFrom(s, '\n', 0);
  }

  /** The offset at which line k starts, with one "\n" after every earlier line. */
  function Offset(lines: seq<string>, k: nat): nat
    requires k <= |lines|
  {
    if k == 0 then 0 else |lines[0]| + 1 + Offset(lines[1..], k - 1)
  }

  lemma {:induction false} OffsetStep(lines: seq<string>, k: nat)
    requires k < |lines|
    ensures Offset(lines, k + 1) == Offset(lines, k) + |lines[k]| + 1
  {
    if k > 0 {
      OffsetStep(lines[1..], k - 1);
    }
  }

  lemma {:induction false} OffsetMonotone(lines: seq<string>, j: nat, k: nat)
    requires j <= k <= |lines|
    ensures Offset(lines, j) <= Offset(lines, k)
    ensures j < k ==> Offset(lines, j) + |lines[j]| < Offset(lines, k)
    decreases k - j
  {
    if j < k {
      OffsetStep(lines, j);
      OffsetMonotone(lines, j + 1, k);
    }
  }

  /** Past the last line the offset is one more than the joined length. */
  lemma {:induction false} OffsetJoin(lines: seq<string>, sep: char)
    requires |lines| >= 1
    ensures Offset(lines, |lines|) == |Join(lines, sep)| + 1
  {
    if |lines| > 1 {
      OffsetJoin(lines[1..], sep);
    }
  }

  /** Counting every line with its "\n" overruns the text by exactly one. */
  lemma OffsetEnd(s: string)
    ensures Offset(Split(s), |Split(s)|) == |s| + 1
  {
    OffsetJoin(Split(s), '\n');
    JoinSplit(s);
  }

  /** Line k of the lines of s[i..] as a slice of s: it starts at i + Offset(k),
      a "\n" follows it unless it is the last line (which ends where s ends),
      and k more newlines precede it than precede i. */
  predicate IsLineAt(s: string, i: nat, lines: seq<string>, k: nat)
    requires i <= |s| && k < |lines|
  {
    var o := i + Offset(lines, k);
    var e := o + |lines[k]|;
    && e <= |s|
    && s[o..e] == lines[k]
    && (k + 1 < |lines| ==> e < |s| && s[e] == '\n')
    && (k + 1 == |lines| ==> e == |s|)
    && NLBefore(s, o) == NLBefore(s, i) + k
  }

  /** The first piece of the lines of s[i..] is line 0. */
  lemma IsLineAtHead(s: string, i: nat, p: nat, lines: seq<string>)
    requires i <= p <= |s| && |lines| >= 1 && lines[0] == s[i..p]
    requires |lines| > 1 ==> p < |s| && s[p] == '\n'
    requires |lines| == 1 ==> p == |s|
    ensures IsLineAt(s, i, lines, 0)
  {
    assert Offset(lines, 0) == 0;
  }

  /** A line found in the text after a "\n" stays a line, one further on,
      once the piece before that "\n" is put in front. */
  lemma IsLineAtCons(s: string, i: nat, p: nat, rest: seq<string>, k: nat)
    requires i <= p < |s| && s[p] == '\n' && NLBefore(s, p) == NLBefore(s, i)
    requires 0 < k <= |rest|
    requires IsLineAt(s, p + 1, rest, k - 1)
    ensures IsLineAt(s, i, [s[i..p]] + rest, k)
  {
    var lines := [s[i..p]] + rest;
    assert lines[1..] == rest;
    assert lines[k] == rest[k - 1];
    assert Offset(lines, k) == p - i + 1 + Offset(rest, k - 1);
  }

  lemma {:induction false} SplitFromLine(s: string, i: nat, k: nat)
    requires i <= |s| && k < |SplitFrom(s, '\n', i)|
    ensures IsLineAt(s, i, SplitFrom(s, '\n', i), k)
    decreases k
  {
    var p := NextSep(s, '\n', i);
    var lines := SplitFrom(s, '\n', i);
    if p == |s| {
      assert lines == [s[i..]];
      IsLineAtHead(s, i, p, lines);
    } else {
      var rest := SplitFrom(s, '\n', p + 1);
      assert lines == [s[i..p]] + rest;
      if k == 0 {
        IsLineAtHead(s, i, p, lines);
      } else {
        SplitFromLine(s, p + 1, k - 1);
        NextSepClear(s, '\n', i);
        NLBeforeFlat(s, i, p);
        IsLineAtCons(s, i, p, rest, k);
      }
    }
  }

  /** Line k of split("\n"), as a slice of the text. */
  lemma SplitLine(s: string, k: nat)
    requires k < |Split(s)|
    ensures IsLineAt(s, 0, Split(s), k)
  {
    SplitFromLine(s, 0, k);
  }

  /** Line k, when another follows it, ends at a "\n" with k newlines before it. */
  lemma AfterLine(s: string, k: nat)
    requires k + 1 < |Split(s)|
    ensures Offset(Split(s), k) + |Split(s)[k]| < |s|
    ensures s[Offset(Split(s), k) + |Split(s)[k]|] == '\n'
    ensures NLBefore(s, Offset(Split(s), k) + |Split(s)[k]|) == k
  {
    var lines := Split(s);
    var o := Offset(lines, k);
    var e := o + |lines[k]|;
    SplitLine(s, k);
    SplitNoNewline(s);
    forall j | o <= j < e
      ensures s[j] != '\n'
    {
      assert s[j] == lines[k][j - o];
    }
    NLBeforeFlat(s, o, e);
  }

  /** Every offset of s (the end included) lies on the line whose index is the
      count of newlines before it. */
  lemma LineOfOffset(s: string, m: nat)
    requires m <= |s|
    ensures NLBefore(s, m) < |Split(s)|
    ensures Offset(Split(s), NLBefore(s, m)) <= m
    ensures m <= Offset(Split(s), NLBefore(s, m)) + |Split(s)[NLBefore(s, m)]|
  {
    LineStartsBefore(s, m);
    LineEndsAfter(s, m);
  }

  /** The line counted for offset m starts no later than m. */
  lemma LineStartsBefore(s: string, m: nat)
    requires m <= |s|
    ensures NLBefore(s, m) < |Split(s)|
    ensures Offset(Split(s), NLBefore(s, m)) <= m
  {
    var lines := Split(s);
    var k := NLBefore(s, m);
    SplitLength(s);
    NLBeforeMonotone(s, m, |s|);
    if k > 0 {
      var e := Offset(lines, k - 1) + |lines[k - 1]|;
      AfterLine(s, k - 1);
      OffsetStep(lines, k - 1);
      NLBeforeOrder(s, e, m);
      assert e < m;
    }
  }

  /** The line counted for offset m ends no earlier than m. */
  lemma LineEndsAfter(s: string, m: nat)
    requires m <= |s| && NLBefore(s, m) < |Split(s)|
    ensures m <= Offset(Split(s), NLBefore(s, m)) + |Split(s)[NLBefore(s, m)]|
  {
    var lines := Split(s);
    var k := NLBefore(s, m);
    var e := Offset(lines, k) + |lines[k]|;
    if k + 1 < |lines| {
      AfterLine(s, k);
      assert NLBefore(s, e + 1) == k + 1;
      NLBeforeOrder(s, m, e + 1);
    } else {
      OffsetEnd(s);
      OffsetStep(lines, k);
      assert e == |s|;
    }
  }

  /** The 1-based number of the line holding offset i: one more than the
      newlines before it. */
  function LineAt(s: string, i: nat): (r: nat)
    requires i <= |s|
    ensures 1 <= r <= |Split(s)|
  {
    LineOfOffset(s, i);
    NLBefore(s, i) + 1
  }

  /** Later offsets never lie on earlier lines. */
  lemma LineAtMonotone(s: string, i: nat, j: nat)
    requires i <= j <= |s|
    ensures LineAt(s, i) <= LineAt(s, j)
  {
    NLBeforeMonotone(s, i, j);
  }

  /** The offsets from Offset(k) up to the end of line k + 1 are exactly those
      that LineAt puts on line k + 1. */
  lemma LineAtFromOffsets(s: string, k: nat, m: nat)
    requires k < |Split(s)| && m <= |s|
    requires Offset(Split(s), k) <= m <= Offset(Split(s), k) + |Split(s)[k]|
    ensures LineAt(s, m) == k + 1
  {
    var lines := Split(s);
    var c := NLBefore(s, m);
    LineOfOffset(s, m);
    if c < k {
      OffsetMonotone(lines, c, k);
    } else if c > k {
      OffsetMonotone(lines, k, c);
    }
  }

  /** An occurrence of a needle without "\n" lies wholly on the line of its
      start offset. */
  lemma OccurrenceOnLine(s: string, n: string, i: nat)
    requires OccursAt(s, n, i) && '\n' !in n
    ensures OccursAt(Split(s)[LineAt(s, i) - 1], n, i - Offset(Split(s), LineAt(s, i) - 1))
  {
    var lines := Split(s);
    var k := NLBefore(s, i);
    LineOfOffset(s, i);
    OccurrenceFits(s, n, i);
    SplitLine(s, k);
    var o := Offset(lines, k);
    var e := o + |lines[k]|;
    OccursInLine(s, n, i, o, e);
  }

  /** An occurrence of a needle without "\n" ends before the "\n" that ends
      the line of its start. */
  lemma OccurrenceFits(s: string, n: string, i: nat)
    requires OccursAt(s, n, i) && '\n' !in n
    requires NLBefore(s, i) < |Split(s)|
    ensures i + |n| <= Offset(Split(s), NLBefore(s, i)) + |Split(s)[NLBefore(s, i)]|
  {
    var lines := Split(s);
    var k := NLBefore(s, i);
    LineOfOffset(s, i);
    SplitLine(s, k);
    assert forall j :: i <= j < i + |n| ==> s[j] == n[j - i];
  }

  /** An occurrence within the bounds of a slice is an occurrence in the slice. */
  lemma OccursInLine(s: string, n: string, i: nat, o: nat, e: nat)
    requires OccursAt(s, n, i) && o <= i && i + |n| <= e <= |s|
    ensures OccursAt(s[o..e], n, i - o)
  {
    var line := s[o..e];
    forall j | 0 <= j < |n| ensures line[i - o + j] == n[j] {
      assert line[i - o + j] == s[i + j];
      assert s[i..i + |n|][j] == s[i + j];
    }
  }

  /** The 1-based index of the first of lines[i..] that contains n, or -1. */
  function FirstLineFrom(lines: seq<string>, n: string, i: nat): (r: int)
    requires i <= |lines|
    ensures r == -1 || (i < r <= |lines| && Contains(lines[r - 1], n))
    ensures r == -1 ==> forall k :: i <= k < |lines| ==> !Contains(lines[k], n)
    ensures r != -1 ==> forall k :: i <= k < r - 1 ==> !Contains(lines[k], n)
    decreases |lines| - i
  {
    if i == |lines| then -1
    else if Contains(lines[i], n) then i + 1
    else FirstLineFrom(lines, n, i + 1)
  }

  /** The 1-based index of the first line that contains n, or -1. */
  function FirstLineContaining(lines: seq<string>, n: string): int {
    FirstLineFrom(lines, n, 0)
  }

  /** The decimal digits of n. */
  function NatToString(n: nat): string
    decreases n
  {
    var d := "0123456789"[n % 10];
    if n < 10 then [d] else NatToString(n / 10) + [d]
  }
}
