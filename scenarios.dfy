/** Whole files run through the checker: sibling blocks at the top level are
    compared pairwise, each with the one just before it. */
module StyleScenarios {
  import opened Wrappers
  import opened Text
  import opened Hex
  import opened LineClassifier
  import opened StyleRules
  import opened StyleEngine

  // ---------------------------------------------------------------------
  // The lines of a sibling file

  /** A node name the name checks have nothing to say about. */
  predicate TidyName(n: string)
  {
    n != [] && AllIn(Ident, n) && '_' !in n && !HasUpper(n)
  }

  /** A label the label checks have nothing to say about (without its `&`). */
  predicate TidyLabel(l: string)
  {
    l != [] && AllIn(Ident, l) && '-' !in l && !HasUpper(l)
  }

  /** The header `n {` a tidy node block opens with. */
  function TidyNodeHeader(n: string): NodeHeader
  {
    NodeHeader([], [], [], n, [], " ", [])
  }

  function TidyOverrideHeader(l: string): OverrideHeader
  {
    OverrideHeader([], "&" + l, " ", [])
  }

  lemma StripNewline(s: string)
    requires s != [] && s[|s| - 1] != '\n'
    ensures RStripNewlines(s + "\n") == s
  {
    assert (s + "\n")[..|s|] == s;
  }

  lemma SpaceIsBlank()
    ensures AllIn(Space, " ")
  {
    assert IsSpace(" "[0]);
  }

  /** `n {` is a node header with nothing to complain about. */
  lemma TidyNodeLine(n: string)
    requires TidyName(n)
    ensures Classify(n + " {") == NodeOpen(TidyNodeHeader(n))
  {
    var h := TidyNodeHeader(n);
    SpaceIsBlank();
    assert NodePatternParts(h);
    assert RenderNode(h) == n + " {";
    MatchNodeHeaderComplete(h);
    assert Greedy(h) == h;
    ClassifyPriority(n + " {");
  }

  /** `&l {` is an override header. */
  lemma TidyOverrideLine(l: string)
    requires TidyLabel(l)
    ensures Classify("&" + l + " {") == LabelOpen(TidyOverrideHeader(l))
  {
    var x := TidyOverrideHeader(l);
    var line := "&" + l + " {";
    SpaceIsBlank();
    assert x.labelText[1..] == l;
    assert OverridePatternParts(x);
    assert RenderOverride(x) == line;
    MatchOverrideHeaderComplete(x);
    assert GreedyExt(x) == x;
    if MatchNodeHeader(line).Some? {
      NodeHeaderStart(line);
      assert false;
    }
    ClassifyPriority(line);
  }

  lemma CloseLineCloses(line: string)
    requires |line| == 2 && line[0] == '}' && line[1] == ';'
    ensures ClosesBlock(line)
  {
    assert line == line + [];
    SplitTrailingUnique(Space, line, []);
  }

  lemma CloseLineIsNoHeader(line: string)
    requires |line| == 2 && line[0] == '}' && line[1] == ';'
    ensures MatchNodeHeader(line).None? && MatchOverrideHeader(line).None?
  {
    NoHeaderWithForeignChar(line, 0);
  }

  lemma CloseLineHasNoBrace(line: string)
    requires |line| == 2 && line[0] == '}' && line[1] == ';'
    ensures !HasOpenBrace(line)
  {
    assert '{' !in line;
    HasOpenBraceIff(line);
  }

  lemma ClassifiedAsClose(line: string)
    requires ClosesBlock(line) && !HasOpenBrace(line)
    requires MatchNodeHeader(line).None? && MatchOverrideHeader(line).None?
    ensures Classify(line) == Close
  {
    ClassifyPriority(line);
  }

  /** `};` closes the block. */
  lemma CloseLine(line: string)
    requires |line| == 2 && line[0] == '}' && line[1] == ';'
    ensures Classify(line) == Close
  {
    CloseLineCloses(line);
    CloseLineIsNoHeader(line);
    CloseLineHasNoBrace(line);
    ClassifiedAsClose(line);
  }

  lemma CloseLineStep(st: State, line: string, ln: int)
    requires |line| == 2 && line[0] == '}' && line[1] == ';'
    ensures Step(st, line, ln) == Outcome(CloseStep(st), None)
  {
    CloseLine(line);
  }

  /** A list of checks none of which holds reports nothing. */
  lemma {:induction false} NothingFired(cs: seq<Check>)
    requires forall i :: 0 <= i < |cs| ==> !cs[i].holds
    ensures Fired(cs) == []
    decreases |cs|
  {
    if cs != [] {
      NothingFired(cs[1..]);
    }
  }

  lemma TidyNodeIsQuiet(n: string)
    requires TidyName(n)
    ensures NodeNameKinds(TidyNodeHeader(n)) == []
  {
    NothingFired(NodeNameChecks(TidyNodeHeader(n)));
  }

  lemma TidyOverrideIsQuiet(l: string)
    requires TidyLabel(l)
    ensures Fired(OverrideChecks(TidyOverrideHeader(l))) == []
  {
    var x := TidyOverrideHeader(l);
    assert '-' !in x.labelText by {
      assert x.labelText == "&" + l;
    }
    assert !HasUpper(x.labelText) by {
      forall k | 0 <= k < |x.labelText|
        ensures !('A' <= x.labelText[k] <= 'Z')
      {
        if k > 0 {
          assert x.labelText[k] == l[k - 1];
        }
      }
    }
    NothingFired(OverrideChecks(x));
  }

  /** A tidy node header draws no name warning and goes straight to the
      sibling comparison. */
  lemma TidyNodeStep(st: State, n: string, ln: int)
    requires TidyName(n)
    ensures Step(st, n + " {", ln) == SortAndRecord(st, Marker(n, [], []), n + " {", ln)
  {
    TidyNodeLine(n);
    TidyNodeIsQuiet(n);
    assert Stamp([], n + " {", ln) == [];
    assert st.(warnings := st.warnings + []) == st;
  }

  /** An override header with a label and nothing to complain about goes
      straight to the sibling comparison. */
  lemma QuietOverrideStep(st: State, x: OverrideHeader, line: string, ln: int)
    requires x.labelText != [] && Fired(OverrideChecks(x)) == []
    ensures OverrideStep(st, x, line, ln) == SortAndRecord(st, OverrideMarker(x), line, ln)
  {
    assert Stamp([], line, ln) == [];
    assert st.(warnings := st.warnings + []) == st;
  }

  lemma TidyOverrideStep(st: State, l: string, ln: int)
    requires TidyLabel(l)
    ensures Step(st, "&" + l + " {", ln) == SortAndRecord(st, Marker([], [], "&" + l), "&" + l + " {", ln)
  {
    var x := TidyOverrideHeader(l);
    TidyOverrideLine(l);
    TidyOverrideIsQuiet(l);
    QuietOverrideStep(st, x, "&" + l + " {", ln);
  }

  // ---------------------------------------------------------------------
  // Top-level sibling nodes

  /** `n {` and `};`, each on a line of its own. */
  function NodeBlock(n: string): seq<string>
  {
    [n + " {" + "\n", "};\n"]
  }

  /** One empty top-level block per name, in order. */
  function SiblingNodes(names: seq<string>): (lines: seq<string>)
    ensures |lines| == 2 * |names|
    decreases |names|
  {
    if names == [] then [] else SiblingNodes(names[..|names| - 1]) + NodeBlock(names[|names| - 1])
  }

  /** A name warning for every node whose name sorts before the one just
      above it; node `i` (from 0) opens on line `2 i + 1`. */
  function NameInversions(names: seq<string>): seq<Warning>
    decreases |names|
  {
    if |names| < 2 then []
    else
      var k := |names| - 1;
      NameInversions(names[..k])
      + (if LexLess(names[k], names[k - 1]) then [Warning(NamesNotSorted, names[k] + " {", 2 * k + 1)] else [])
  }

  /** What the checker is left with after the blocks: the last block's
      marker at the top level, and depth 0. */
  function LastMarker(names: seq<string>): map<int, Marker>
  {
    if names == [] then map[] else map[0 := Marker(names[|names| - 1], [], [])]
  }

  /** What the top level remembers after tidy node blocks: nothing, or the
      last node's name. */
  predicate NodeMemo(pm: map<int, Marker>)
  {
    pm == map[] || (pm.Keys == {0} && pm[0].nodename != [] && pm[0].unitaddr == [] && pm[0].labelText == [])
  }

  /** The name warning a tidy node header at the top level draws. */
  function NameWarning(pm: map<int, Marker>, n: string, ln: int): seq<Warning>
    requires NodeMemo(pm)
  {
    if pm != map[] && LexLess(n, pm[0].nodename) then [Warning(NamesNotSorted, n + " {", ln)] else []
  }

  /** At depth 0 a node is compared by name with the node before it. */
  lemma TopLevelNodeSorting(ws: seq<Warning>, pm: map<int, Marker>, n: string, ln: int)
    requires NodeMemo(pm)
    requires n != []
    ensures SortAndRecord(State(ws, 0, pm), Marker(n, [], []), n + " {", ln)
            == Outcome(State(ws + NameWarning(pm, n, ln), 1, map[0 := Marker(n, [], [])]), None)
  {
    SortingCheckCases(pm, 0, Marker(n, [], []));
    assert pm[0 := Marker(n, [], [])] == map[0 := Marker(n, [], [])];
    if pm != map[] {
      assert -1 !in pm.Keys;
      assert NameRuleApplies(pm, 0);
    }
  }

  /** The loop after one more line, which raised nothing. */
  lemma RunOneMore(st0: State, before: seq<string>, text: string, line: string, ln: int, o: Outcome)
    requires Run(st0, before).error.None?
    requires RStripNewlines(text) == line && ln == |before| + 1
    requires Step(Run(st0, before).state, line, ln) == o
    ensures Run(st0, before + [text]) == o
  {
    var all := before + [text];
    assert all[..|all| - 1] == before && all[|all| - 1] == text;
    RunLast(st0, all);
  }

  /** The loop over a tidy node header goes on to the sorting check. */
  lemma RunNodeLine(st: State, before: seq<string>, n: string)
    requires TidyName(n)
    requires Run(INITIAL, before) == Outcome(st, None)
    ensures Run(INITIAL, before + [n + " {" + "\n"]) == SortAndRecord(st, Marker(n, [], []), n + " {", |before| + 1)
  {
    var line := n + " {";
    StripNewline(line);
    TidyNodeStep(st, n, |before| + 1);
    RunOneMore(INITIAL, before, line + "\n", line, |before| + 1, SortAndRecord(st, Marker(n, [], []), line, |before| + 1));
  }

  /** The closing line of a top-level block. */
  lemma CloseLineAfter(st: State, before: seq<string>)
    requires Run(INITIAL, before) == Outcome(st, None)
    ensures Run(INITIAL, before + ["};\n"]) == Outcome(CloseStep(st), None)
  {
    var text := "};\n";
    StripNewline("};");
    var close := RStripNewlines(text);
    CloseLineStep(st, close, |before| + 1);
    RunOneMore(INITIAL, before, text, close, |before| + 1, Outcome(CloseStep(st), None));
  }

  lemma BlockSplit(before: seq<string>, header: string)
    ensures before + [header, "};\n"] == (before + [header]) + ["};\n"]
  {
  }

  /** Closing the block of a top-level entry keeps its marker. */
  lemma CloseTopLevel(ws: seq<Warning>, m: Marker)
    ensures CloseStep(State(ws, 1, map[0 := m])) == State(ws, 0, map[0 := m])
  {
    assert map[0 := m] - {1} == map[0 := m];
  }

  /** A block of a tidy node at the top level: the header is compared with
      the marker before it and leaves its own; the close returns to depth 0. */
  lemma NodeBlockStep(ws: seq<Warning>, pm: map<int, Marker>, before: seq<string>, n: string, lines: seq<string>)
    requires TidyName(n)
    requires NodeMemo(pm)
    requires Run(INITIAL, before) == Outcome(State(ws, 0, pm), None)
    requires lines == before + NodeBlock(n)
    ensures Run(INITIAL, lines)
            == Outcome(State(ws + NameWarning(pm, n, |before| + 1), 0, map[0 := Marker(n, [], [])]), None)
  {
    var half := before + [n + " {" + "\n"];
    RunNodeLine(State(ws, 0, pm), before, n);
    TopLevelNodeSorting(ws, pm, n, |before| + 1);
    var w := NameWarning(pm, n, |before| + 1);
    var st := State(ws + w, 1, map[0 := Marker(n, [], [])]);
    CloseLineAfter(st, half);
    assert NodeBlock(n) == [n + " {" + "\n", "};\n"];
    BlockSplit(before, n + " {" + "\n");
    CloseTopLevel(ws + w, Marker(n, [], []));
  }

  /** How the three descriptions of a file of node blocks grow by a block. */
  lemma SiblingNodesGrow(front: seq<string>, n: string, names: seq<string>)
    requires names == front + [n]
    requires front != [] ==> front[|front| - 1] != []
    ensures SiblingNodes(names) == SiblingNodes(front) + NodeBlock(n)
    ensures NodeMemo(LastMarker(front))
    ensures LastMarker(names) == map[0 := Marker(n, [], [])]
    ensures NameInversions(names) == NameInversions(front) + NameWarning(LastMarker(front), n, |SiblingNodes(front)| + 1)
  {
    assert names[..|names| - 1] == front && names[|names| - 1] == n;
    if front != [] {
      assert names[|names| - 2] == front[|front| - 1];
    }
  }

  /** One more tidy block at the end of a file of tidy blocks. */
  lemma NodeBlocksGrow(front: seq<string>, n: string, names: seq<string>)
    requires names == front + [n]
    requires TidyName(n) && (front != [] ==> front[|front| - 1] != [])
    requires Run(INITIAL, SiblingNodes(front)) == Outcome(State(NameInversions(front), 0, LastMarker(front)), None)
    ensures Run(INITIAL, SiblingNodes(names)) == Outcome(State(NameInversions(names), 0, LastMarker(names)), None)
  {
    SiblingNodesGrow(front, n, names);
    NodeBlockStep(NameInversions(front), LastMarker(front), SiblingNodes(front), n, SiblingNodes(names));
  }

  /** A file of empty top-level blocks with tidy names draws exactly one
      warning per adjacent pair out of string order, on the second block's
      header line, and nothing else. */
  lemma {:induction false} TopLevelNodeOrder(names: seq<string>)
    requires forall i :: 0 <= i < |names| ==> TidyName(names[i])
    ensures Run(INITIAL, SiblingNodes(names)) == Outcome(State(NameInversions(names), 0, LastMarker(names)), None)
    decreases |names|
  {
    if names != [] {
      var front := names[..|names| - 1];
      assert forall i :: 0 <= i < |front| ==> front[i] == names[i];
      assert names == front + [names[|names| - 1]];
      assert TidyName(names[|names| - 1]);
      assert front != [] ==> TidyName(front[|front| - 1]);
      TopLevelNodeOrder(front);
      NodeBlocksGrow(front, names[|names| - 1], names);
    }
  }

  // ---------------------------------------------------------------------
  // Top-level overrides

  function OverrideBlock(l: string): seq<string>
  {
    ["&" + l + " {" + "\n", "};\n"]
  }

  function SiblingOverrides(labels: seq<string>): (lines: seq<string>)
    ensures |lines| == 2 * |labels|
    decreases |labels|
  {
    if labels == [] then [] else SiblingOverrides(labels[..|labels| - 1]) + OverrideBlock(labels[|labels| - 1])
  }

  /** An override warning for every label that sorts before the one just
      above it. */
  function LabelInversions(labels: seq<string>): seq<Warning>
    decreases |labels|
  {
    if |labels| < 2 then []
    else
      var k := |labels| - 1;
      LabelInversions(labels[..k])
      + (if LexLess(labels[k], labels[k - 1]) then [Warning(OverridesNotSorted, "&" + labels[k] + " {", 2 * k + 1)] else [])
  }

  function LastOverride(labels: seq<string>): map<int, Marker>
  {
    if labels == [] then map[] else map[0 := Marker([], [], "&" + labels[|labels| - 1])]
  }

  /** What the top level remembers after override blocks: nothing, or the
      last override's label. */
  predicate OverrideMemo(pm: map<int, Marker>)
  {
    pm == map[] || (pm.Keys == {0} && pm[0].labelText != [])
  }

  /** The override warning a tidy override header at the top level draws. */
  function LabelWarning(pm: map<int, Marker>, l: string, ln: int): seq<Warning>
    requires OverrideMemo(pm)
  {
    if pm != map[] && LexLess("&" + l, pm[0].labelText) then [Warning(OverridesNotSorted, "&" + l + " {", ln)] else []
  }

  /** At depth 0 an override is compared by label with the override before it. */
  lemma TopLevelOverrideSorting(ws: seq<Warning>, pm: map<int, Marker>, l: string, ln: int)
    requires OverrideMemo(pm)
    ensures SortAndRecord(State(ws, 0, pm), Marker([], [], "&" + l), "&" + l + " {", ln)
            == Outcome(State(ws + LabelWarning(pm, l, ln), 1, map[0 := Marker([], [], "&" + l)]), None)
  {
    SortingCheckCases(pm, 0, Marker([], [], "&" + l));
    assert pm[0 := Marker([], [], "&" + l)] == map[0 := Marker([], [], "&" + l)];
  }

  /** The loop over a tidy override header goes on to the sorting check. */
  lemma RunOverrideLine(st: State, before: seq<string>, l: string)
    requires TidyLabel(l)
    requires Run(INITIAL, before) == Outcome(st, None)
    ensures Run(INITIAL, before + ["&" + l + " {" + "\n"])
            == SortAndRecord(st, Marker([], [], "&" + l), "&" + l + " {", |before| + 1)
  {
    var line := "&" + l + " {";
    StripNewline(line);
    TidyOverrideStep(st, l, |before| + 1);
    RunOneMore(INITIAL, before, line + "\n", line, |before| + 1,
               SortAndRecord(st, Marker([], [], "&" + l), line, |before| + 1));
  }

  lemma OverrideBlockStep(ws: seq<Warning>, pm: map<int, Marker>, before: seq<string>, l: string, lines: seq<string>)
    requires TidyLabel(l)
    requires OverrideMemo(pm)
    requires Run(INITIAL, before) == Outcome(State(ws, 0, pm), None)
    requires lines == before + OverrideBlock(l)
    ensures Run(INITIAL, lines)
            == Outcome(State(ws + LabelWarning(pm, l, |before| + 1), 0, map[0 := Marker([], [], "&" + l)]), None)
  {
    var half := before + ["&" + l + " {" + "\n"];
    RunOverrideLine(State(ws, 0, pm), before, l);
    TopLevelOverrideSorting(ws, pm, l, |before| + 1);
    var w := LabelWarning(pm, l, |before| + 1);
    var st := State(ws + w, 1, map[0 := Marker([], [], "&" + l)]);
    CloseLineAfter(st, half);
    assert OverrideBlock(l) == ["&" + l + " {" + "\n", "};\n"];
    BlockSplit(before, "&" + l + " {" + "\n");
    CloseTopLevel(ws + w, Marker([], [], "&" + l));
  }

  /** How the three descriptions of a file of override blocks grow by a
      block; the `&` in front of both labels does not change their order. */
  lemma SiblingOverridesGrow(front: seq<string>, l: string, labels: seq<string>)
    requires labels == front + [l]
    ensures SiblingOverrides(labels) == SiblingOverrides(front) + OverrideBlock(l)
    ensures OverrideMemo(LastOverride(front))
    ensures LastOverride(labels) == map[0 := Marker([], [], "&" + l)]
    ensures LabelInversions(labels) == LabelInversions(front) + LabelWarning(LastOverride(front), l, |SiblingOverrides(front)| + 1)
  {
    assert labels[..|labels| - 1] == front && labels[|labels| - 1] == l;
    if front != [] {
      var p := front[|front| - 1];
      assert labels[|labels| - 2] == p;
      assert "&" + l == ['&'] + l && "&" + p == ['&'] + p;
      LexLessCons('&', l, p);
    }
  }

  /** One more tidy override block at the end of a file of them. */
  lemma OverrideBlocksGrow(front: seq<string>, l: string, labels: seq<string>)
    requires labels == front + [l]
    requires TidyLabel(l)
    requires Run(INITIAL, SiblingOverrides(front)) == Outcome(State(LabelInversions(front), 0, LastOverride(front)), None)
    ensures Run(INITIAL, SiblingOverrides(labels)) == Outcome(State(LabelInversions(labels), 0, LastOverride(labels)), None)
  {
    SiblingOverridesGrow(front, l, labels);
    OverrideBlockStep(LabelInversions(front), LastOverride(front), SiblingOverrides(front), l, SiblingOverrides(labels));
  }

  /** The same for `&label { };` blocks: one override warning per adjacent
      pair of labels out of string order. */
  lemma {:induction false} TopLevelOverrideOrder(labels: seq<string>)
    requires forall i :: 0 <= i < |labels| ==> TidyLabel(labels[i])
    ensures Run(INITIAL, SiblingOverrides(labels)) == Outcome(State(LabelInversions(labels), 0, LastOverride(labels)), None)
    decreases |labels|
  {
    if labels != [] {
      var front := labels[..|labels| - 1];
      assert forall i :: 0 <= i < |front| ==> front[i] == labels[i];
      assert labels == front + [labels[|labels| - 1]];
      assert TidyLabel(labels[|labels| - 1]);
      TopLevelOverrideOrder(front);
      OverrideBlocksGrow(front, labels[|labels| - 1], labels);
    }
  }
}
