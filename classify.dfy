/** The line classifier of dtschema/dts_style.py: the four line patterns of
    the handler table, each written as a hand-made matcher, and the dispatch
    that takes the first pattern that matches.

    Python's `re.match` anchors at the start of the line; `.` is any
    character but a newline and `$` matches at the end of the line or just
    before a final newline. In the two header patterns every repeated group
    is followed by a character outside its own class, so backtracking never
    gives a greedy run back and the captures are fixed: the matchers below
    take each greedy run in turn. */
module LineClassifier {
  import opened Wrappers
  import opened Text

  /** The groups of the node-header pattern
      `^\s*(label:)?(s1)(nodename)(@unitaddr)?(s2)\{(s3)$`. `lead` is the
      unnamed leading `\s*`; an absent `label` or `unitaddr` is the empty
      string (both groups are non-empty when present, so nothing is lost). */
  datatype NodeHeader = NodeHeader(
    lead: string, labelText: string, s1: string, nodename: string,
    unitaddr: string, s2: string, s3: string)

  /** The groups of the override pattern `^(s1)(&label)?(s2)\{(s3)$`; an
      absent label is the empty string. */
  datatype OverrideHeader = OverrideHeader(s1: string, labelText: string, s2: string, s3: string)

  /** What the classifier makes of one line. */
  datatype LineShape =
    | NodeOpen(node: NodeHeader)
    | LabelOpen(ext: OverrideHeader)
    | GenericOpen
    | Close
    | Unmatched

  // ---------------------------------------------------------------------
  // Pattern 1: a node header

  function AddrPart(u: string): string
  {
    if u == [] then [] else "@" + u
  }

  /** The line a set of node-header groups spells out. */
  function RenderNode(h: NodeHeader): string
  {
    h.lead + (h.labelText + (h.s1 + (h.nodename + (AddrPart(h.unitaddr) + (h.s2 + ("{" + h.s3))))))
  }

  /** `[a-zA-Z0-9,_-]+:` */
  ghost predicate IsNodeLabel(l: string)
  {
    |l| >= 2 && AllIn(Ident, l[..|l| - 1]) && l[|l| - 1] == ':'
  }

  /** Each group holds text its sub-pattern accepts: RenderNode(h) is then a
      line the pattern matches, and every matching line arises this way. */
  ghost predicate NodePatternParts(h: NodeHeader)
  {
    && AllIn(Space, h.lead)
    && (h.labelText == [] || IsNodeLabel(h.labelText))
    && AllIn(Space, h.s1)
    && h.nodename != [] && AllIn(Ident, h.nodename)
    && AllIn(Addr, h.unitaddr)
    && AllIn(Space, h.s2)
    && AllIn(Space, h.s3)
  }

  /** The groups Python reports: without a label, the greedy leading `\s*`
      has already taken every blank, so `s1` is empty. */
  ghost predicate GreedyNode(h: NodeHeader)
  {
    NodePatternParts(h) && (h.labelText == [] ==> h.s1 == [])
  }

  /** The greedy reading of any way of splitting a line into the groups. */
  function Greedy(h: NodeHeader): NodeHeader
  {
    if h.labelText == [] then h.(lead := h.lead + h.s1, s1 := []) else h
  }

  /** `(?P<s2>\s*)\{(?P<s3>\s*)$` at the start of `rest`. */
  function MatchBraceTail(rest: string): (r: Option<(string, string)>)
    ensures r.Some? ==> AllIn(Space, r.value.0) && AllIn(Space, r.value.1)
    ensures r.Some? ==> rest == r.value.0 + ("{" + r.value.1)
    ensures r.Some? ==> r.value.0 == TakeWhile(Space, rest).0
  {
    var (s2, r1) := TakeWhile(Space, rest);
    if r1 == [] || r1[0] != '{' then None
    else
      var (s3, r2) := TakeWhile(Space, r1[1..]);
      if r2 != [] then None
      else
        assert r1 == "{" + s3 by { assert r1 == [r1[0]] + r1[1..]; }
        Some((s2, s3))
  }

  /** The optional group `(?P<label>[a-zA-Z0-9,_-]+:)?` at the start of `r0`. */
  function SplitNodeLabel(r0: string): (r: (string, string))
    ensures r.0 + r.1 == r0
    ensures r.0 == [] || IsNodeLabel(r.0)
    ensures r.0 == [] ==> r.1 == r0
  {
    var (word, r1) := TakeWhile(Ident, r0);
    if word != [] && r1 != [] && r1[0] == ':' then
      assert r1 == ":" + r1[1..];
      assert (word + ":")[..|word|] == word;
      (word + ":", r1[1..])
    else
      ([], r0)
  }

  /** `(@(?P<unitaddr>[0-9a-fA-FxX]+))?(?P<s2>\s*)\{(?P<s3>\s*)$` at the
      start of `rest`. */
  function MatchAfterName(rest: string): (r: Option<(string, string, string)>)
    ensures r.Some? ==> AllIn(Addr, r.value.0) && AllIn(Space, r.value.1) && AllIn(Space, r.value.2)
    ensures r.Some? ==> rest == AddrPart(r.value.0) + (r.value.1 + ("{" + r.value.2))
  {
    if rest != [] && rest[0] == '@' then
      var (addr, r1) := TakeWhile(Addr, rest[1..]);
      if addr == [] then None
      else
        match MatchBraceTail(r1)
        case None => None
        case Some((s2, s3)) =>
          assert rest == "@" + rest[1..];
          Some((addr, s2, s3))
    else
      match MatchBraceTail(rest)
      case None => None
      case Some((s2, s3)) => Some(([], s2, s3))
  }

  /** Pattern 1 of the handler table, dts_style.py:43. */
  function MatchNodeHeader(line: string): (r: Option<NodeHeader>)
    ensures r.Some? ==> GreedyNode(r.value) && RenderNode(r.value) == line
  {
    var (lead, r0) := TakeWhile(Space, line);
    var (lbl, r1) := SplitNodeLabel(r0);
    var (s1, r2) := TakeWhile(Space, r1);
    var (name, r3) := TakeWhile(Ident, r2);
    if name == [] then None
    else
      match MatchAfterName(r3)
      case None => None
      case Some((addr, s2, s3)) => Some(NodeHeader(lead, lbl, s1, name, addr, s2, s3))
  }

  lemma IdentNotSpace(c: char)
    requires IsIdentChar(c)
    ensures !IsSpace(c) && c != ':' && c != '@' && c != '{' && c != '&'
  {
  }

  lemma BraceTailStart(s2: string, s3: string)
    requires AllIn(Space, s2)
    ensures var t := s2 + ("{" + s3); t != [] && !IsIdentChar(t[0]) && t[0] != ':' && t[0] != '@'
  {
    if s2 != [] {
      assert (s2 + ("{" + s3))[0] == s2[0];
    }
  }

  lemma MatchBraceTailComplete(s2: string, s3: string)
    requires AllIn(Space, s2) && AllIn(Space, s3)
    ensures MatchBraceTail(s2 + ("{" + s3)) == Some((s2, s3))
  {
    TakeWhileUnique(Space, s2, "{" + s3);
    assert ("{" + s3)[1..] == s3;
    assert s3 + [] == s3;
    TakeWhileUnique(Space, s3, []);
  }

  lemma MatchAfterNameNoAddr(s2: string, s3: string)
    requires AllIn(Space, s2) && AllIn(Space, s3)
    ensures MatchAfterName(s2 + ("{" + s3)) == Some(([], s2, s3))
  {
    BraceTailStart(s2, s3);
    MatchBraceTailComplete(s2, s3);
  }

  lemma MatchAfterNameWithAddr(addr: string, s2: string, s3: string)
    requires addr != [] && AllIn(Addr, addr) && AllIn(Space, s2) && AllIn(Space, s3)
    ensures MatchAfterName("@" + (addr + (s2 + ("{" + s3)))) == Some((addr, s2, s3))
  {
    var tail := s2 + ("{" + s3);
    var t := "@" + (addr + tail);
    BraceTailStart(s2, s3);
    MatchBraceTailComplete(s2, s3);
    assert t[1..] == addr + tail;
    TakeWhileUnique(Addr, addr, tail);
  }

  lemma MatchAfterNameComplete(addr: string, s2: string, s3: string)
    requires AllIn(Addr, addr) && AllIn(Space, s2) && AllIn(Space, s3)
    ensures var t := AddrPart(addr) + (s2 + ("{" + s3));
            && t != [] && !IsIdentChar(t[0]) && t[0] != ':'
            && MatchAfterName(t) == Some((addr, s2, s3))
  {
    var tail := s2 + ("{" + s3);
    BraceTailStart(s2, s3);
    if addr != [] {
      assert AddrPart(addr) + tail == "@" + (addr + tail);
      MatchAfterNameWithAddr(addr, s2, s3);
    } else {
      assert AddrPart(addr) + tail == tail;
      MatchAfterNameNoAddr(s2, s3);
    }
  }

  lemma SplitNodeLabelComplete(lbl: string, more: string)
    requires lbl == [] || IsNodeLabel(lbl)
    requires lbl == [] ==> var (_, r) := TakeWhile(Ident, more); r == [] || r[0] != ':'
    ensures SplitNodeLabel(lbl + more) == (lbl, more)
  {
    if lbl == [] {
      assert lbl + more == more;
    } else {
      var word := lbl[..|lbl| - 1];
      assert lbl == word + ":";
      assert lbl + more == word + (":" + more);
      TakeWhileUnique(Ident, word, ":" + more);
      assert (":" + more)[1..] == more;
    }
  }

  /** Every way the node-header pattern can match a line: the matcher
      accepts the line and reports the greedy captures. */
  lemma MatchNodeHeaderComplete(h: NodeHeader)
    requires NodePatternParts(h)
    ensures MatchNodeHeader(RenderNode(h)) == Some(Greedy(h))
  {
    var g := Greedy(h);
    assert RenderNode(g) == RenderNode(h);
    var after := AddrPart(g.unitaddr) + (g.s2 + ("{" + g.s3));
    MatchAfterNameComplete(g.unitaddr, g.s2, g.s3);
    var fromName := g.nodename + after;
    TakeWhileUnique(Ident, g.nodename, after);
    IdentNotSpace(g.nodename[0]);
    assert fromName[0] == g.nodename[0];
    TakeWhileUnique(Space, g.s1, fromName);
    var afterLabel := g.s1 + fromName;
    assert g.labelText == [] ==> afterLabel == fromName;
    SplitNodeLabelComplete(g.labelText, afterLabel);
    var r0 := g.labelText + afterLabel;
    if g.labelText != [] {
      IdentNotSpace(g.labelText[0]);
      assert r0[0] == g.labelText[0];
    } else {
      assert r0 == fromName;
    }
    TakeWhileUnique(Space, g.lead, r0);
    assert RenderNode(g) == g.lead + r0;
  }

  // ---------------------------------------------------------------------
  // Pattern 2: a label override (`&label {`), or a bare brace

  function RenderOverride(h: OverrideHeader): string
  {
    h.s1 + (h.labelText + (h.s2 + ("{" + h.s3)))
  }

  /** `&[a-zA-Z0-9,_-]+` */
  ghost predicate IsRefLabel(l: string)
  {
    |l| >= 2 && l[0] == '&' && AllIn(Ident, l[1..])
  }

  ghost predicate OverridePatternParts(h: OverrideHeader)
  {
    AllIn(Space, h.s1) && (h.labelText == [] || IsRefLabel(h.labelText))
    && AllIn(Space, h.s2) && AllIn(Space, h.s3)
  }

  /** Without a label the greedy `s1` has taken every blank before the brace. */
  ghost predicate GreedyOverride(h: OverrideHeader)
  {
    OverridePatternParts(h) && (h.labelText == [] ==> h.s2 == [])
  }

  function GreedyExt(h: OverrideHeader): OverrideHeader
  {
    if h.labelText == [] then h.(s1 := h.s1 + h.s2, s2 := []) else h
  }

  /** The optional group `(?P<label>&[a-zA-Z0-9,_-]+)?` at the start of
      `r0`. A `&` with no name after it matches neither way (the brace the
      pattern needs next is not there), hence None. */
  function SplitRefLabel(r0: string): (r: Option<(string, string)>)
    ensures r.Some? ==> r.value.0 + r.value.1 == r0
    ensures r.Some? ==> r.value.0 == [] || IsRefLabel(r.value.0)
    ensures r.Some? && r.value.0 == [] ==> r.value.1 == r0
    ensures r.None? ==> r0 != [] && r0[0] == '&'
  {
    if r0 != [] && r0[0] == '&' then
      var (word, r1) := TakeWhile(Ident, r0[1..]);
      if word == [] then None
      else
        assert r0 == ("&" + word) + r1 by { assert r0 == "&" + r0[1..]; }
        assert ("&" + word)[1..] == word;
        Some(("&" + word, r1))
    else
      Some(([], r0))
  }

  /** Pattern 2 of the handler table, dts_style.py:45. */
  function MatchOverrideHeader(line: string): (r: Option<OverrideHeader>)
    ensures r.Some? ==> GreedyOverride(r.value) && RenderOverride(r.value) == line
  {
    var (s1, r0) := TakeWhile(Space, line);
    match SplitRefLabel(r0)
    case None => None
    case Some((lbl, r1)) =>
      match MatchBraceTail(r1)
      case None => None
      case Some((s2, s3)) => Some(OverrideHeader(s1, lbl, s2, s3))
  }

  lemma MatchOverrideNoLabel(s1: string, s3: string)
    requires AllIn(Space, s1) && AllIn(Space, s3)
    ensures MatchOverrideHeader(s1 + ("{" + s3)) == Some(OverrideHeader(s1, [], [], s3))
  {
    var tail := "{" + s3;
    assert [] + tail == tail;
    MatchBraceTailComplete([], s3);
    TakeWhileUnique(Space, s1, tail);
  }

  lemma MatchOverrideWithLabel(s1: string, word: string, s2: string, s3: string)
    requires AllIn(Space, s1) && word != [] && AllIn(Ident, word) && AllIn(Space, s2) && AllIn(Space, s3)
    ensures MatchOverrideHeader(s1 + ("&" + (word + (s2 + ("{" + s3)))))
            == Some(OverrideHeader(s1, "&" + word, s2, s3))
  {
    var tail := s2 + ("{" + s3);
    var r0 := "&" + (word + tail);
    MatchBraceTailComplete(s2, s3);
    BraceTailStart(s2, s3);
    TakeWhileUnique(Space, s1, r0);
    assert r0[1..] == word + tail;
    TakeWhileUnique(Ident, word, tail);
    assert SplitRefLabel(r0) == Some(("&" + word, tail));
  }

  /** Every way the override pattern can match a line: the matcher accepts
      it and reports the greedy captures. */
  lemma MatchOverrideHeaderComplete(h: OverrideHeader)
    requires OverridePatternParts(h)
    ensures MatchOverrideHeader(RenderOverride(h)) == Some(GreedyExt(h))
  {
    var g := GreedyExt(h);
    assert RenderOverride(g) == RenderOverride(h);
    if g.labelText == [] {
      assert RenderOverride(g) == g.s1 + ("{" + g.s3);
      MatchOverrideNoLabel(g.s1, g.s3);
    } else {
      var word := g.labelText[1..];
      assert g.labelText == "&" + word;
      assert RenderOverride(g) == g.s1 + ("&" + (word + (g.s2 + ("{" + g.s3))));
      MatchOverrideWithLabel(g.s1, word, g.s2, g.s3);
    }
  }

  // ---------------------------------------------------------------------
  // Pattern 3: any other line with an opening brace, `^.*\{.*$`

  /** The line without the one final newline `$` may stand before. */
  function Chomp(s: string): string
  {
    if s != [] && s[|s| - 1] == '\n' then s[..|s| - 1] else s
  }

  /** Pattern 3 of the handler table, dts_style.py:47. */
  predicate HasOpenBrace(line: string)
  {
    var t := Chomp(line);
    '{' in t && '\n' !in t
  }

  /** `^.*\{.*$` matches with its brace at position `i`. */
  ghost predicate OpenPatternAt(line: string, i: int)
  {
    && 0 <= i < |line| && line[i] == '{' && '\n' !in line[..i]
    && ('\n' !in line[i + 1..]
        || (line[|line| - 1] == '\n' && i < |line| - 1 && '\n' !in line[i + 1..|line| - 1]))
  }

  lemma HasOpenBraceIff(line: string)
    ensures HasOpenBrace(line) <==> exists i :: OpenPatternAt(line, i)
  {
    var t := Chomp(line);
    assert t == line[..|t|];
    if HasOpenBrace(line) {
      var i :| 0 <= i < |t| && t[i] == '{';
      assert line[..i] == t[..i];
      if |t| < |line| {
        assert line[i + 1..|line| - 1] == t[i + 1..];
      } else {
        assert line[i + 1..] == t[i + 1..];
      }
      assert OpenPatternAt(line, i);
    }
    if exists i :: OpenPatternAt(line, i) {
      var i :| OpenPatternAt(line, i);
      if '\n' !in line[i + 1..] {
        assert line == line[..i] + [line[i]] + line[i + 1..];
        assert '\n' !in line;
        assert t == line;
      } else {
        assert t == line[..i] + [line[i]] + line[i + 1..|line| - 1];
      }
      assert t[i] == '{';
    }
  }

  // ---------------------------------------------------------------------
  // Pattern 4: a closing line, `^.*\};(?P<s1>\s*)$`

  /** Pattern 4 of the handler table, dts_style.py:48. */
  predicate ClosesBlock(line: string)
  {
    var (body, _) := SplitTrailing(Space, line);
    |body| >= 2 && body[|body| - 2] == '}' && body[|body| - 1] == ';'
    && '\n' !in body[..|body| - 2]
  }

  /** `^.*\};\s*$` matches with its `};` at position `i`. */
  ghost predicate ClosePatternAt(line: string, i: int)
  {
    && 0 <= i && i + 2 <= |line| && line[i] == '}' && line[i + 1] == ';'
    && '\n' !in line[..i] && AllIn(Space, line[i + 2..])
  }

  lemma {:induction false} SplitTrailingUnique(cls: CharClass, body: string, tail: string)
    requires AllIn(cls, tail)
    requires body == [] || !InClass(cls, body[|body| - 1])
    ensures SplitTrailing(cls, body + tail) == (body, tail)
    decreases |tail|
  {
    var s := body + tail;
    if tail == [] {
      assert s == body;
    } else {
      var front, last := tail[..|tail| - 1], tail[|tail| - 1];
      assert InClass(cls, last);
      assert s[..|s| - 1] == body + front && s[|s| - 1] == last;
      SplitTrailingUnique(cls, body, front);
      assert front + [last] == tail;
      assert SplitTrailing(cls, s) == (body, front + [last]);
    }
  }

  lemma ClosesBlockIff(line: string)
    ensures ClosesBlock(line) <==> exists i :: ClosePatternAt(line, i)
  {
    var (body, tail) := SplitTrailing(Space, line);
    if ClosesBlock(line) {
      var i := |body| - 2;
      assert line[..i] == body[..i];
      assert line[i + 2..] == tail;
      assert ClosePatternAt(line, i);
    }
    if exists i :: ClosePatternAt(line, i) {
      var i :| ClosePatternAt(line, i);
      var b, t := line[..i + 2], line[i + 2..];
      assert b + t == line;
      SplitTrailingUnique(Space, b, t);
      assert b[..i] == line[..i];
    }
  }

  // ---------------------------------------------------------------------
  // The handler table and its dispatch

  datatype Pattern = NodePattern | OverridePattern | OpenPattern | ClosePattern

  /** The order of the handler table, dts_style.py:42-49. */
  const HANDLER_ORDER: seq<Pattern> := [NodePattern, OverridePattern, OpenPattern, ClosePattern]

  /** What one pattern of the table makes of a line: Unmatched when it does
      not match. */
  function MatchPattern(p: Pattern, line: string): (r: LineShape)
    ensures p == NodePattern ==> (r.NodeOpen? || r.Unmatched?)
    ensures p == OverridePattern ==> (r.LabelOpen? || r.Unmatched?)
    ensures p == OpenPattern ==> (r.GenericOpen? || r.Unmatched?)
    ensures p == ClosePattern ==> (r.Close? || r.Unmatched?)
  {
    match p
    case NodePattern =>
      (match MatchNodeHeader(line) case Some(h) => NodeOpen(h) case None => Unmatched)
    case OverridePattern =>
      (match MatchOverrideHeader(line) case Some(h) => LabelOpen(h) case None => Unmatched)
    case OpenPattern => if HasOpenBrace(line) then GenericOpen else Unmatched
    case ClosePattern => if ClosesBlock(line) then Close else Unmatched
  }

  /** The first pattern of `ps` that matches, tried in order. */
  function FirstMatch(ps: seq<Pattern>, line: string): LineShape
  {
    if ps == [] then Unmatched
    else
      var m := MatchPattern(ps[0], line);
      if !m.Unmatched? then m else FirstMatch(ps[1..], line)
  }

  function Classify(line: string): LineShape
  {
    FirstMatch(HANDLER_ORDER, line)
  }

  lemma FirstMatchStep(ps: seq<Pattern>, line: string)
    requires ps != []
    ensures FirstMatch(ps, line) ==
              (if !MatchPattern(ps[0], line).Unmatched? then MatchPattern(ps[0], line)
               else FirstMatch(ps[1..], line))
  {
  }

  /** Patterns are tried in the order of the table and the first match
      decides. */
  lemma ClassifyPriority(line: string)
    ensures Classify(line) ==
              if MatchNodeHeader(line).Some? then NodeOpen(MatchNodeHeader(line).value)
              else if MatchOverrideHeader(line).Some? then LabelOpen(MatchOverrideHeader(line).value)
              else if HasOpenBrace(line) then GenericOpen
              else if ClosesBlock(line) then Close
              else Unmatched
  {
    var ps := HANDLER_ORDER;
    var m1, m2, m3, m4 := MatchPattern(NodePattern, line), MatchPattern(OverridePattern, line),
                          MatchPattern(OpenPattern, line), MatchPattern(ClosePattern, line);
    assert ps[1..][1..][1..][1..] == [];
    var f4 := FirstMatch(ps[1..][1..][1..], line);
    assert f4 == if !m4.Unmatched? then m4 else Unmatched by {
      FirstMatchStep(ps[1..][1..][1..], line);
    }
    var f3 := FirstMatch(ps[1..][1..], line);
    assert f3 == if !m3.Unmatched? then m3 else f4 by {
      FirstMatchStep(ps[1..][1..], line);
    }
    var f2 := FirstMatch(ps[1..], line);
    assert f2 == if !m2.Unmatched? then m2 else f3 by {
      FirstMatchStep(ps[1..], line);
    }
    assert Classify(line) == if !m1.Unmatched? then m1 else f2 by {
      FirstMatchStep(ps, line);
    }
  }

  /** Within one physical line (no newline inside), a line with an opening
      brace is never taken for a close. */
  lemma BraceLineIsNotClose(line: string)
    requires '{' in line && '\n' !in line
    ensures !Classify(line).Close?
  {
    ClassifyPriority(line);
    assert Chomp(line) == line;
  }

  /** The characters a line matching either header pattern is made of. */
  predicate HeaderChar(c: char)
  {
    IsSpace(c) || IsIdentChar(c) || c == ':' || c == '@' || c == '{' || c == '&'
  }

  predicate AllHeaderChars(s: string)
  {
    forall k :: 0 <= k < |s| ==> HeaderChar(s[k])
  }

  lemma HeaderCharsConcat(a: string, b: string)
    requires AllHeaderChars(a) && AllHeaderChars(b)
    ensures AllHeaderChars(a + b)
  {
    forall k | 0 <= k < |a + b|
      ensures HeaderChar((a + b)[k])
    {
      if k >= |a| {
        assert (a + b)[k] == b[k - |a|];
      }
    }
  }

  lemma HeaderCharsOfRun(cls: CharClass, s: string)
    requires cls != Zero && cls != LowerHex && AllIn(cls, s)
    ensures AllHeaderChars(s)
  {
    forall k | 0 <= k < |s|
      ensures HeaderChar(s[k])
    {
      assert InClass(cls, s[k]);
    }
  }

  lemma BraceTailChars(s2: string, s3: string)
    requires AllIn(Space, s2) && AllIn(Space, s3)
    ensures AllHeaderChars(s2 + ("{" + s3))
  {
    HeaderCharsOfRun(Space, s2);
    HeaderCharsOfRun(Space, s3);
    assert AllHeaderChars("{");
    HeaderCharsConcat("{", s3);
    HeaderCharsConcat(s2, "{" + s3);
  }

  /** A node-header line is made of header characters only and holds a
      name character. */
  lemma NodeHeaderAlphabet(line: string)
    requires MatchNodeHeader(line).Some?
    ensures AllHeaderChars(line)
    ensures exists k :: 0 <= k < |line| && IsIdentChar(line[k])
  {
    var h := MatchNodeHeader(line).value;
    BraceTailChars(h.s2, h.s3);
    var t0 := h.s2 + ("{" + h.s3);
    var t1 := AddrPart(h.unitaddr) + t0;
    if h.unitaddr != [] {
      HeaderCharsOfRun(Addr, h.unitaddr);
      assert AllHeaderChars("@");
      HeaderCharsConcat("@", h.unitaddr);
      HeaderCharsConcat("@" + h.unitaddr, t0);
    } else {
      assert t1 == t0;
    }
    HeaderCharsOfRun(Ident, h.nodename);
    HeaderCharsConcat(h.nodename, t1);
    var t2 := h.nodename + t1;
    HeaderCharsOfRun(Space, h.s1);
    HeaderCharsConcat(h.s1, t2);
    var t3 := h.s1 + t2;
    assert AllHeaderChars(h.labelText) by {
      if h.labelText != [] {
        var w := h.labelText[..|h.labelText| - 1];
        assert h.labelText == w + ":";
        HeaderCharsOfRun(Ident, w);
        assert AllHeaderChars(":");
        HeaderCharsConcat(w, ":");
      }
    }
    HeaderCharsConcat(h.labelText, t3);
    HeaderCharsOfRun(Space, h.lead);
    HeaderCharsConcat(h.lead, h.labelText + t3);
    assert line == h.lead + (h.labelText + t3);
    var k := |h.lead| + |h.labelText| + |h.s1|;
    assert line[k] == h.nodename[0];
  }

  /** An override line is made of header characters only. */
  lemma OverrideHeaderAlphabet(line: string)
    requires MatchOverrideHeader(line).Some?
    ensures AllHeaderChars(line)
  {
    var h := MatchOverrideHeader(line).value;
    BraceTailChars(h.s2, h.s3);
    var t0 := h.s2 + ("{" + h.s3);
    assert AllHeaderChars(h.labelText) by {
      if h.labelText != [] {
        var w := h.labelText[1..];
        assert h.labelText == "&" + w;
        HeaderCharsOfRun(Ident, w);
        assert AllHeaderChars("&");
        HeaderCharsConcat("&", w);
      }
    }
    HeaderCharsConcat(h.labelText, t0);
    HeaderCharsOfRun(Space, h.s1);
    HeaderCharsConcat(h.s1, h.labelText + t0);
  }

  /** A line with a character no header uses (`/`, `.`, `}`, `=`, ...) is
      matched by neither header pattern. */
  lemma NoHeaderWithForeignChar(line: string, k: int)
    requires 0 <= k < |line| && !HeaderChar(line[k])
    ensures MatchNodeHeader(line).None? && MatchOverrideHeader(line).None?
  {
    if MatchNodeHeader(line).Some? {
      NodeHeaderAlphabet(line);
      assert false;
    }
    if MatchOverrideHeader(line).Some? {
      OverrideHeaderAlphabet(line);
      assert false;
    }
  }

  /** A physical line holding a brace and some character no header uses
      only opens a block: the root node `/ {`, a dotted name `foo.bar {`,
      a property block `x = {`. */
  lemma ForeignBraceLineIsGenericOpen(line: string, k: int)
    requires 0 <= k < |line| && !HeaderChar(line[k])
    requires '{' in line && '\n' !in line
    ensures Classify(line) == GenericOpen
  {
    ClassifyPriority(line);
    NoHeaderWithForeignChar(line, k);
    assert Chomp(line) == line;
  }

  /** `.` does not match a newline and `$` only skips a final one: pattern 3
      fails on a line with a newline anywhere before its last character,
      whatever braces it holds. (The lines the file loop passes on never
      hold a newline.) */
  lemma InnerNewlineIsNoOpen(line: string, j: int)
    requires 0 <= j < |line| - 1 && line[j] == '\n'
    ensures !HasOpenBrace(line)
  {
    assert Chomp(line)[j] == '\n';
  }

  /** A bare `{` (the second line of a header split over two lines) is taken
      by the override pattern, with no label. */
  lemma BareBraceIsLabelOpen()
    ensures Classify("{") == LabelOpen(OverrideHeader([], [], [], []))
  {
    ClassifyPriority("{");
    if MatchNodeHeader("{").Some? {
      NodeHeaderAlphabet("{");
      assert false;
    }
    assert [] + ("{" + []) == "{";
    MatchOverrideNoLabel([], []);
  }

  /** A node header starts with a blank or a name character, so a line
      starting with `&` is never one. */
  lemma NodeHeaderStart(line: string)
    requires MatchNodeHeader(line).Some?
    ensures line != [] && (IsSpace(line[0]) || IsIdentChar(line[0]))
  {
    var h := MatchNodeHeader(line).value;
    var rest := h.nodename + (AddrPart(h.unitaddr) + (h.s2 + ("{" + h.s3)));
    assert line == h.lead + (h.labelText + (h.s1 + rest));
    assert rest[0] == h.nodename[0];
    if h.lead != [] {
      assert line[0] == h.lead[0];
    } else if h.labelText != [] {
      assert line[0] == h.labelText[0];
    } else {
      assert line == rest;
    }
  }
}
