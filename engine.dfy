/** What the style checker does to its state per line and over a whole file,
    as functions: the specification the `DtsStyle` class is proved against
    (dtschema/dts_style.py:54-160). */
module StyleEngine {
  import opened Wrappers
  import opened Text
  import opened LineClassifier
  import opened StyleRules

  /** `self.warnings`, `self.__nested` and `self.__prev_node`. */
  datatype State = State(warnings: seq<Warning>, nested: int, prevNode: map<int, Marker>)

  /** The state a fresh checker starts from, dts_style.py:38-41. */
  const INITIAL: State := State([], 0, map[])

  /** The state after a call, and the exception it raised, if any. */
  datatype Outcome = Outcome(state: State, error: Option<StyleError>)

  /** The marker `check_node_name` records for a node header. */
  function NodeMarker(h: NodeHeader): Marker
  {
    Marker(h.nodename, h.unitaddr, [])
  }

  /** The marker `check_label` records for an override. */
  function OverrideMarker(x: OverrideHeader): Marker
  {
    Marker([], [], x.labelText)
  }

  /** `check_node_sorting`, then the marker is stored at the current depth
      and the depth goes up (dts_style.py:114-116, 131-133). A failed
      conversion leaves depth and markers as they were. */
  function SortAndRecord(st: State, node: Marker, line: string, ln: int): Outcome
  {
    match SortingCheck(st.prevNode, st.nested, node)
    case Failure(e) => Outcome(st, Some(e))
    case Success(w) =>
      var ws := st.warnings + (if w.Some? then [Warning(w.value, line, ln)] else []);
      Outcome(State(ws, st.nested + 1, st.prevNode[st.nested := node]), None)
  }

  /** `check_node_name`, dts_style.py:85-116. */
  function NodeStep(st: State, h: NodeHeader, line: string, ln: int): Outcome
  {
    var named := st.(warnings := st.warnings + Stamp(NodeNameKinds(h), line, ln));
    SortAndRecord(named, NodeMarker(h), line, ln)
  }

  /** `check_label`, dts_style.py:118-133. Without a label the whitespace
      check still runs, and the hyphen check then raises. */
  function OverrideStep(st: State, x: OverrideHeader, line: string, ln: int): Outcome
  {
    var cs := OverrideChecks(x);
    if x.labelText == [] then
      Outcome(st.(warnings := st.warnings + Stamp(Fired(cs[..1]), line, ln)), Some(MissingLabel))
    else
      var checked := st.(warnings := st.warnings + Stamp(Fired(cs), line, ln));
      SortAndRecord(checked, OverrideMarker(x), line, ln)
  }

  /** `handle_open_node`, dts_style.py:141-142. */
  function OpenStep(st: State): State
  {
    st.(nested := st.nested + 1)
  }

  /** `handle_close_node`, dts_style.py:144-147. */
  function CloseStep(st: State): State
  {
    st.(nested := st.nested - 1, prevNode := st.prevNode - {st.nested})
  }

  /** `parse_line`: the handler of the first pattern that matches. */
  function Step(st: State, line: string, ln: int): Outcome
  {
    Dispatch(st, Classify(line), line, ln)
  }
  function Dispatch(st: State, c: LineShape, line: string, ln: int): Outcome
  {
    match c
    case NodeOpen(h) => NodeStep(st, h, line, ln)
    case LabelOpen(x) => OverrideStep(st, x, line, ln)
    case GenericOpen => Outcome(OpenStep(st), None)
    case Close => Outcome(CloseStep(st), None)
    case Unmatched => Outcome(st, None)
  }

  /** `check_dts` over the lines read so far: line `k` (counted from 1) is
      `lines[k - 1]` with its trailing newlines stripped, and an exception
      ends the loop. */
  function Run(st: State, lines: seq<string>): Outcome
    decreases |lines|
  {
    if lines == [] then Outcome(st, None)
    else
      var o := Run(st, lines[..|lines| - 1]);
      if o.error.Some? then o
      else Step(o.state, RStripNewlines(lines[|lines| - 1]), |lines|)
  }

  /** The new warnings of `after` extend those of `before` and are all about
      line `ln`. */
  predicate AppendsAbout(before: State, after: State, line: string, ln: int)
  {
    && before.warnings <= after.warnings
    && forall i :: |before.warnings| <= i < |after.warnings| ==>
         after.warnings[i].line == line && after.warnings[i].lineNo == ln
  }

  lemma SortAndRecordShape(st: State, node: Marker, line: string, ln: int)
    ensures var o := SortAndRecord(st, node, line, ln);
            && AppendsAbout(st, o.state, line, ln) && |o.state.warnings| <= |st.warnings| + 1
            && (o.error.None? ==> o.state.nested == st.nested + 1 && o.state.prevNode == st.prevNode[st.nested := node])
            && (o.error.Some? ==> o.state == st)
  {
  }

  /** `after` holds the warnings of `before`, then the warnings `checks`
      of the header's own checks in order, then at most one sorting warning,
      and none at all if the comparison raised. */
  predicate ChecksThenSorting(before: State, after: State, checks: seq<Warning>, raised: bool)
  {
    && before.warnings + checks <= after.warnings
    && |after.warnings| <= |before.warnings| + |checks| + (if raised then 0 else 1)
    && forall i :: |before.warnings| + |checks| <= i < |after.warnings| ==> IsSortingKind(after.warnings[i].kind)
  }

  /** A node header appends its nine checks' warnings in their order, then
      at most one sorting warning (dts_style.py:89-116). */
  lemma NodeStepShape(st: State, h: NodeHeader, line: string, ln: int)
    ensures var o := NodeStep(st, h, line, ln);
            && AppendsAbout(st, o.state, line, ln)
            && ChecksThenSorting(st, o.state, Stamp(NodeNameKinds(h), line, ln), o.error.Some?)
            && (o.error.None? ==> o.state.nested == st.nested + 1 && o.state.prevNode == st.prevNode[st.nested := NodeMarker(h)])
            && (o.error.Some? ==> o.state.nested == st.nested && o.state.prevNode == st.prevNode)
  {
    var named := st.(warnings := st.warnings + Stamp(NodeNameKinds(h), line, ln));
    SortAndRecordShape(named, NodeMarker(h), line, ln);
  }

  /** A labelled override appends its whitespace, hyphen and upper-case
      warnings in that order, then at most one sorting warning; one without
      a label stops after the whitespace check (dts_style.py:118-133). */
  lemma OverrideStepShape(st: State, x: OverrideHeader, line: string, ln: int)
    ensures var o := OverrideStep(st, x, line, ln);
            && AppendsAbout(st, o.state, line, ln)
            && (x.labelText != [] ==> ChecksThenSorting(st, o.state, Stamp(Fired(OverrideChecks(x)), line, ln), o.error.Some?))
            && (x.labelText == [] ==>
                  o.error == Some(MissingLabel)
                  && o.state.warnings == st.warnings + Stamp(Fired(OverrideChecks(x)[..1]), line, ln))
            && (o.error.None? ==> o.state.nested == st.nested + 1 && o.state.prevNode == st.prevNode[st.nested := OverrideMarker(x)])
            && (o.error.Some? ==> o.state.nested == st.nested && o.state.prevNode == st.prevNode)
  {
    var cs := OverrideChecks(x);
    if x.labelText != [] {
      var checked := st.(warnings := st.warnings + Stamp(Fired(cs), line, ln));
      SortAndRecordShape(checked, OverrideMarker(x), line, ln);
    }
  }

  /** One step of the file loop: after a line that did not raise, the next
      one is handled; after one that did, nothing more happens. */
  lemma RunLast(st: State, lines: seq<string>)
    requires lines != []
    ensures var o := Run(st, lines[..|lines| - 1]);
            Run(st, lines) == if o.error.Some? then o else Step(o.state, RStripNewlines(lines[|lines| - 1]), |lines|)
  {
  }

  /** The loop over the first `n` lines is the loop over the first `n - 1`
      followed by line `n`, when those did not raise. */
  lemma RunNext(st: State, lines: seq<string>, n: nat, s: State, o: Outcome)
    requires 0 < n <= |lines| && Run(st, lines[..n - 1]) == Outcome(s, None)
    requires Step(s, RStripNewlines(lines[n - 1]), n) == o
    ensures Run(st, lines[..n]) == o
  {
    PrefixLast(lines, n);
    RunLast(st, lines[..n]);
  }

  lemma PrefixLast<T>(xs: seq<T>, n: nat)
    requires 0 < n <= |xs|
    ensures |xs[..n]| == n && xs[..n][..n - 1] == xs[..n - 1] && xs[..n][n - 1] == xs[n - 1]
  {
  }

  /** Running every line of the prefix runs every line. */
  lemma RunWhole(st: State, lines: seq<string>, k: nat)
    requires k == |lines|
    ensures Run(st, lines[..k]) == Run(st, lines)
  {
    assert lines[..k] == lines;
  }

  /** Once the first `k` lines raise, the remaining lines change nothing. */
  lemma RunRaisedAt(st: State, lines: seq<string>, k: nat)
    requires k <= |lines| && Run(st, lines[..k]).error.Some?
    ensures Run(st, lines) == Run(st, lines[..k])
  {
    assert lines[..k] + lines[k..] == lines;
    RunStopsAtError(st, lines[..k], lines[k..]);
  }

  // ---------------------------------------------------------------------
  // Dispatch

  /** A line no pattern matches changes nothing. */
  lemma UnmatchedLineChangesNothing(st: State, line: string, ln: int)
    requires Classify(line).Unmatched?
    ensures Step(st, line, ln) == Outcome(st, None)
  {
  }

  /** A physical line holding `{` always opens a block, unless the unit
      address comparison raised. */
  lemma BraceLineOpens(st: State, line: string, ln: int)
    requires '{' in line && '\n' !in line
    ensures Step(st, line, ln).error.None? ==> Step(st, line, ln).state.nested == st.nested + 1
    ensures Step(st, line, ln).error.Some? ==> Step(st, line, ln).state.nested == st.nested
  {
    ClassifyPriority(line);
    assert Chomp(line) == line;
    BraceLineIsNotClose(line);
    match Classify(line)
    case NodeOpen(h) => NodeStepShape(st, h, line, ln);
    case LabelOpen(x) => OverrideStepShape(st, x, line, ln);
    case GenericOpen =>
  }

  /** A label-less override line (a lone `{`) reports one whitespace error
      and then raises; nothing else changes. */
  lemma LabellessOverrideRaises(st: State, line: string, ln: int)
    requires Classify(line).LabelOpen? && Classify(line).ext.labelText == []
    ensures Step(st, line, ln) ==
              Outcome(st.(warnings := st.warnings + [Warning(WhitespaceError, line, ln)]), Some(MissingLabel))
  {
    ClassifyPriority(line);
    var x := Classify(line).ext;
    assert x == MatchOverrideHeader(line).value;
    assert x.s2 == [];
    LabellessOverrideStep(st, x, line, ln);
  }

  lemma LabellessOverrideStep(st: State, x: OverrideHeader, line: string, ln: int)
    requires x.labelText == [] && x.s2 == []
    ensures OverrideStep(st, x, line, ln) ==
              Outcome(st.(warnings := st.warnings + [Warning(WhitespaceError, line, ln)]), Some(MissingLabel))
  {
    OverrideWarnings(x);
    assert Stamp([WhitespaceError], line, ln) == [Warning(WhitespaceError, line, ln)];
  }

  // ---------------------------------------------------------------------
  // Depth and marker bookkeeping

  /** Every handler's effect on depth and markers: a header stores its
      marker at the current depth and goes one deeper; a generic open only
      goes deeper; a close drops the marker one level down (the closed
      node's children) and goes back up, so the closed node's own marker
      stays for its next sibling; a failing line changes neither. */
  lemma StepBookkeeping(st: State, line: string, ln: int)
    ensures var o := Step(st, line, ln);
            match Classify(line)
            case NodeOpen(h) =>
              o.error.None? ==> o.state.nested == st.nested + 1 && o.state.prevNode == st.prevNode[st.nested := NodeMarker(h)]
            case LabelOpen(x) =>
              o.error.None? ==> o.state.nested == st.nested + 1 && o.state.prevNode == st.prevNode[st.nested := OverrideMarker(x)]
            case GenericOpen => o == Outcome(st.(nested := st.nested + 1), None)
            case Close =>
              && o.error.None? && o.state.warnings == st.warnings && o.state.nested == st.nested - 1
              && st.nested !in o.state.prevNode
              && (forall d :: d != st.nested ==> (d in o.state.prevNode <==> d in st.prevNode))
              && (forall d :: d != st.nested && d in st.prevNode ==> o.state.prevNode[d] == st.prevNode[d])
            case Unmatched => o == Outcome(st, None)
    ensures var o := Step(st, line, ln);
            o.error.Some? ==> o.state.nested == st.nested && o.state.prevNode == st.prevNode
  {
    match Classify(line)
    case NodeOpen(h) => NodeStepShape(st, h, line, ln);
    case LabelOpen(x) => OverrideStepShape(st, x, line, ln);
    case GenericOpen =>
    case Close =>
    case Unmatched =>
  }

  /** No marker is kept deeper than the current depth. */
  predicate KeysBelow(st: State)
  {
    forall d :: d in st.prevNode ==> d <= st.nested
  }

  lemma StepKeepsKeysBelow(st: State, line: string, ln: int)
    requires KeysBelow(st)
    ensures KeysBelow(Step(st, line, ln).state)
  {
    StepBookkeeping(st, line, ln);
  }

  /** So the first header inside a freshly opened block has no sibling to
      be compared with. */
  lemma OpenedBlockStartsFresh(st: State, line: string, ln: int)
    requires KeysBelow(st)
    requires Step(st, line, ln).error.None?
    requires Step(st, line, ln).state.nested == st.nested + 1
    ensures Step(st, line, ln).state.nested !in Step(st, line, ln).state.prevNode
  {
    StepBookkeeping(st, line, ln);
  }

  lemma {:induction false} RunKeepsKeysBelow(st: State, lines: seq<string>)
    requires KeysBelow(st)
    ensures KeysBelow(Run(st, lines).state)
    decreases |lines|
  {
    if lines != [] {
      var front := lines[..|lines| - 1];
      RunKeepsKeysBelow(st, front);
      var o := Run(st, front);
      if o.error.None? {
        StepKeepsKeysBelow(o.state, RStripNewlines(lines[|lines| - 1]), |lines|);
      }
    }
  }

  /** How much a line moves the depth, when it raises nothing. */
  function DepthChange(line: string): int
  {
    match Classify(RStripNewlines(line))
    case NodeOpen(_) => 1
    case LabelOpen(_) => 1
    case GenericOpen => 1
    case Close => -1
    case Unmatched => 0
  }

  function TotalDepthChange(lines: seq<string>): int
    decreases |lines|
  {
    if lines == [] then 0 else TotalDepthChange(lines[..|lines| - 1]) + DepthChange(lines[|lines| - 1])
  }

  /** The depth after a file is the opens minus the closes: nothing keeps
      it from going negative. */
  lemma {:induction false} RunDepth(st: State, lines: seq<string>)
    requires Run(st, lines).error.None?
    ensures Run(st, lines).state.nested == st.nested + TotalDepthChange(lines)
    decreases |lines|
  {
    if lines != [] {
      var front := lines[..|lines| - 1];
      RunDepth(st, front);
      var o := Run(st, front);
      StepBookkeeping(o.state, RStripNewlines(lines[|lines| - 1]), |lines|);
    }
  }

  // ---------------------------------------------------------------------
  // The warning list

  /** Warnings are only ever appended, and a line adds warnings about
      itself only: its text and its number. */
  lemma StepAppendsOnly(st: State, line: string, ln: int)
    ensures AppendsAbout(st, Step(st, line, ln).state, line, ln)
  {
    match Classify(line)
    case NodeOpen(h) => NodeStepShape(st, h, line, ln);
    case LabelOpen(x) => OverrideStepShape(st, x, line, ln);
    case GenericOpen =>
    case Close =>
    case Unmatched =>
  }

  lemma {:induction false} RunAppendsOnly(st: State, lines: seq<string>)
    ensures st.warnings <= Run(st, lines).state.warnings
    decreases |lines|
  {
    if lines != [] {
      var front := lines[..|lines| - 1];
      RunAppendsOnly(st, front);
      var o := Run(st, front);
      if o.error.None? {
        StepAppendsOnly(o.state, RStripNewlines(lines[|lines| - 1]), |lines|);
      }
    }
  }

  /** Once a line raised, the lines after it are never looked at. */
  lemma {:induction false} RunStopsAtError(st: State, lines: seq<string>, more: seq<string>)
    requires Run(st, lines).error.Some?
    ensures Run(st, lines + more) == Run(st, lines)
    decreases |more|
  {
    if more != [] {
      var all := lines + more;
      var front := all[..|all| - 1];
      assert front == lines + more[..|more| - 1];
      RunStopsAtError(st, lines, more[..|more| - 1]);
      RunLast(st, all);
    } else {
      assert lines + more == lines;
    }
  }
}
