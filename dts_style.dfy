/** The `DtsFile` line source and the `DtsStyle` checker object of
    dtschema/dts_style.py, as classes whose methods update their fields in
    place. Each method is proved against the functions of `StyleEngine`:
    after a call, the object's fields are what the function computes from
    the fields before it. */
module DtsChecker {
  import opened Wrappers
  import opened Text
  import opened Hex
  import opened LineClassifier
  import opened StyleRules
  import opened StyleEngine

  /** `s` ends with `suffix` (`str.endswith`). */
  predicate EndsWith(s: string, suffix: string)
  {
    |suffix| <= |s| && s[|s| - |suffix|..] == suffix
  }

  /** The file names the constructor refuses. */
  predicate RejectedName(filename: string)
  {
    EndsWith(filename, ".diff") || EndsWith(filename, ".patch")
  }

  lemma RejectedNameExamples()
    ensures RejectedName("fix.diff") && RejectedName("a.patch") && RejectedName(".diff")
    ensures !RejectedName("board.dts") && !RejectedName("diff") && !RejectedName("a.diff.dts")
  {
    assert "fix.diff"[3..] == ".diff";
    assert "a.patch"[1..] == ".patch";
    assert "board.dts"[4..] != ".diff" by { assert "board.dts"[4..][0] == 'd'; }
    assert "a.diff.dts"[5..] != ".diff" by { assert "a.diff.dts"[5..][0] == 'f'; }
    assert "a.diff.dts"[4..] != ".patch" by { assert "a.diff.dts"[4..][0] == 'f'; }
  }

  /** `DtsFile`: hands out the lines of a file one by one with their number,
      counted from 1. The lines are given; opening and closing the file are
      not modelled. */
  class DtsFile {
    const filename: string
    const contents: seq<string>
    var lineno: nat

    predicate Valid()
      reads this
    {
      lineno <= |contents|
    }

    constructor (filename: string, contents: seq<string>)
      ensures this.filename == filename && this.contents == contents
      ensures lineno == 0 && Valid()
    {
      this.filename := filename;
      this.contents := contents;
      lineno := 0;
    }

    /** `__next__`: the next line and its number; None once the file is
        exhausted (Python's StopIteration), and then the count stays. */
    method Next() returns (r: Option<(string, nat)>)
      requires Valid()
      modifies this
      ensures Valid()
      ensures old(lineno) < |contents| ==>
                r == Some((contents[old(lineno)], old(lineno) + 1)) && lineno == old(lineno) + 1
      ensures old(lineno) == |contents| ==> r == None && lineno == old(lineno)
    {
      if lineno == |contents| {
        return None;
      }
      var a := contents[lineno];
      lineno := lineno + 1;
      return Some((a, lineno));
    }
  }

  /** `DtsStyle`: the warnings found so far, the nesting depth and the last
      marker seen at each depth. */
  class DtsStyle {
    var warnings: seq<Warning>
    const filename: string
    var nested: int
    var prevNode: map<int, Marker>

    /** The fields as a value of the engine's state. */
    function Snapshot(): State
      reads this
    {
      State(warnings, nested, prevNode)
    }

    /** No marker is kept deeper than the current depth. The source demands
        nothing of this kind, so no method requires it: it is an invariant
        that `Create` establishes and `ParseLine` and `CheckDts` are proved
        to keep. */
    predicate Valid()
      reads this
    {
      KeysBelow(Snapshot())
    }

    constructor Init(filename: string)
      requires !RejectedName(filename)
      ensures Snapshot() == INITIAL && this.filename == filename && Valid()
    {
      warnings := [];
      this.filename := filename;
      nested := 0;
      prevNode := map[];
    }

    /** `DtsStyle(filename)`: refuses a diff or a patch and otherwise starts
        with no warnings, depth 0 and no markers. */
    static method Create(filename: string) returns (r: Result<DtsStyle, StyleError>)
      ensures r.Failure? <==> RejectedName(filename)
      ensures r.Failure? ==> r.error == PatchInput
      ensures r.Success? ==> fresh(r.value) && r.value.Snapshot() == INITIAL && r.value.filename == filename
    {
      if EndsWith(filename, ".diff") || EndsWith(filename, ".patch") {
        return Failure(PatchInput);
      }
      var style := new DtsStyle.Init(filename);
      return Success(style);
    }

    /** `self.warnings.append([message, line, ln])`. */
    method Warn(k: Kind, line: string, ln: int)
      modifies this
      ensures warnings == old(warnings) + [Warning(k, line, ln)]
      ensures nested == old(nested) && prevNode == old(prevNode)
    {
      warnings := warnings + [Warning(k, line, ln)];
    }

    /** `check_node_sorting`: at most one warning, or the error `int(_, 16)`
        raises; depth and markers stay as they are. */
    method CheckNodeSorting(line: string, ln: int, node: Marker) returns (err: Option<StyleError>)
      modifies this
      ensures var r := SortingCheck(old(prevNode), old(nested), node);
              r.Failure? ==> err == Some(r.error) && warnings == old(warnings)
      ensures var r := SortingCheck(old(prevNode), old(nested), node);
              r.Success? ==> err == None && warnings == old(warnings) + (if r.value.Some? then [Warning(r.value.value, line, ln)] else [])
      ensures nested == old(nested) && prevNode == old(prevNode)
    {
      err := None;
      if nested !in prevNode {
        return;
      }
      var prev := prevNode[nested];
      if node.labelText != [] && prev.labelText != [] {
        if LexLess(node.labelText, prev.labelText) {
          Warn(OverridesNotSorted, line, ln);
        }
        return;
      } else if node.unitaddr != [] && prev.unitaddr != [] {
        var a := ParseAddress(node.unitaddr);
        if a.None? {
          return Some(BadUnitAddress(node.unitaddr));
        }
        var b := ParseAddress(prev.unitaddr);
        if b.None? {
          return Some(BadUnitAddress(prev.unitaddr));
        }
        if a.value < b.value {
          Warn(AddrNotSorted, line, ln);
        }
        return;
      } else if node.nodename != [] && prev.nodename != [] {
        if prev.unitaddr != [] {
          // the rule for nodes without a unit address is switched off
        } else if LexLess(node.nodename, prev.nodename) {
          var overrideByLabel := false;
          if (nested - 1) in prevNode {
            overrideByLabel := prevNode[nested - 1].labelText != [];
          }
          if nested < 2 && !overrideByLabel {
            Warn(NamesNotSorted, line, ln);
          }
        }
        return;
      }
      Warn(Unhandled, line, ln);
    }

    /** The sorting check, then the marker is stored at the current depth
        and the depth goes up; a raising check leaves both alone. */
    method SortAndStore(line: string, ln: int, node: Marker) returns (err: Option<StyleError>)
      modifies this
      ensures Outcome(Snapshot(), err) == SortAndRecord(old(Snapshot()), node, line, ln)
    {
      err := CheckNodeSorting(line, ln, node);
      if err.Some? {
        return;
      }
      prevNode := prevNode[nested := node];
      nested := nested + 1;
    }

    /** `check_node_name`: the nine name checks, then sorting, storing and
        going one deeper. */
    method CheckNodeName(line: string, ln: int, h: NodeHeader) returns (err: Option<StyleError>)
      modifies this
      ensures Outcome(Snapshot(), err) == NodeStep(old(Snapshot()), h, line, ln)
    {
      NameChecks(line, ln, h);
      err := SortAndStore(line, ln, NodeMarker(h));
    }

    /** The name checks of `check_node_name`, in the order of the source. */
    method NameChecks(line: string, ln: int, h: NodeHeader)
      modifies this
      ensures warnings == old(warnings) + Stamp(NodeNameKinds(h), line, ln)
      ensures nested == old(nested) && prevNode == old(prevNode)
    {
      NodeNameRuns(warnings, h, line, ln);
      LabelRun(line, ln, h);
      BlankAndNameRun(line, ln, h);
      AddressRun(line, ln, h);
    }

    /** `if label:` and the three checks under it. */
    method LabelRun(line: string, ln: int, h: NodeHeader)
      modifies this
      ensures warnings == old(warnings) + Stamp(Fired(NodeNameChecks(h)[..3]), line, ln)
      ensures nested == old(nested) && prevNode == old(prevNode)
    {
      ghost var cs := NodeNameChecks(h)[..3];
      EmitThree(warnings, cs, line, ln);
      var lbl := h.labelText;
      if lbl != [] {
        if h.s1 != " " {
          Warn(WhitespaceError, line, ln);
        }
        if '-' in lbl {
          Warn(LabelHyphen, line, ln);
        }
        if HasUpper(lbl) {
          Warn(LabelUppercase, line, ln);
        }
      }
    }

    /** The blanks around `{`, then the node name. */
    method BlankAndNameRun(line: string, ln: int, h: NodeHeader)
      modifies this
      ensures warnings == old(warnings) + Stamp(Fired(NodeNameChecks(h)[3..6]), line, ln)
      ensures nested == old(nested) && prevNode == old(prevNode)
    {
      ghost var cs := NodeNameChecks(h)[3..6];
      EmitThree(warnings, cs, line, ln);
      var nodename := h.nodename;
      if h.s2 != " " || h.s3 != [] {
        Warn(WhitespaceError, line, ln);
      }
      if '_' in nodename {
        Warn(NameUnderscore, line, ln);
      }
      if HasUpper(nodename) {
        Warn(NameUppercase, line, ln);
      }
    }

    /** `if unitaddr:` and the three checks under it. */
    method AddressRun(line: string, ln: int, h: NodeHeader)
      modifies this
      ensures warnings == old(warnings) + Stamp(Fired(NodeNameChecks(h)[6..]), line, ln)
      ensures nested == old(nested) && prevNode == old(prevNode)
    {
      ghost var cs := NodeNameChecks(h)[6..];
      EmitThree(warnings, cs, line, ln);
      var unitaddr := h.unitaddr;
      if unitaddr != [] {
        if HasUpperHex(unitaddr) {
          Warn(AddrUppercase, line, ln);
        }
        if HasHexMarker(unitaddr) {
          Warn(AddrHexPrefix, line, ln);
        }
        if LeadingZeroAddress(unitaddr) {
          Warn(AddrLeadingZero, line, ln);
        }
      }
    }

    /** `check_label`: one whitespace check over all three blanks, then the
        label checks, sorting, storing and going one deeper. A header with
        no `&label` stops after the whitespace check: `'-' in label` raises
        on Python's None. */
    method CheckLabel(line: string, ln: int, x: OverrideHeader) returns (err: Option<StyleError>)
      modifies this
      ensures Outcome(Snapshot(), err) == OverrideStep(old(Snapshot()), x, line, ln)
    {
      ghost var cs := OverrideChecks(x);
      EmitOne(warnings, cs, line, ln);
      EmitThree(warnings, cs, line, ln);
      if x.s1 != [] || x.s2 != " " || x.s3 != [] {
        Warn(WhitespaceError, line, ln);
      }
      if x.labelText == [] {
        return Some(MissingLabel);
      }
      if '-' in x.labelText {
        Warn(LabelHyphen, line, ln);
      }
      if HasUpper(x.labelText) {
        Warn(LabelUppercase, line, ln);
      }
      err := SortAndStore(line, ln, OverrideMarker(x));
    }

    /** `handle_open_node`. */
    method HandleOpenNode()
      modifies this
      ensures Snapshot() == OpenStep(old(Snapshot()))
    {
      nested := nested + 1;
    }

    /** `handle_close_node`: forgets the marker at the current depth, if
        any, and goes back up. */
    method HandleCloseNode()
      modifies this
      ensures Snapshot() == CloseStep(old(Snapshot()))
    {
      if nested in prevNode {
        prevNode := prevNode - {nested};
      }
      nested := nested - 1;
    }

    /** The handler of the pattern that matched (`handle_node` and
        `handle_node_extend` only pass the line on). */
    method Handle(m: LineShape, line: string, ln: int) returns (err: Option<StyleError>)
      modifies this
      ensures Outcome(Snapshot(), err) == Dispatch(old(Snapshot()), m, line, ln)
    {
      match m
      case NodeOpen(h) => err := CheckNodeName(line, ln, h);
      case LabelOpen(x) => err := CheckLabel(line, ln, x);
      case GenericOpen => HandleOpenNode(); err := None;
      case Close => HandleCloseNode(); err := None;
      case Unmatched => err := None;
    }

    /** `parse_line`: the patterns are tried in the order of the handler
        table and the first that matches hands the line to its handler. */
    method ParseLine(line: string, ln: int) returns (err: Option<StyleError>)
      modifies this
      ensures Outcome(Snapshot(), err) == Step(old(Snapshot()), line, ln)
      ensures old(Valid()) ==> Valid()
    {
      ghost var st0 := Snapshot();
      if KeysBelow(st0) {
        StepKeepsKeysBelow(st0, line, ln);
      }
      var i := 0;
      while i < |HANDLER_ORDER|
        invariant 0 <= i <= |HANDLER_ORDER|
        invariant FirstMatch(HANDLER_ORDER[i..], line) == Classify(line)
        invariant Snapshot() == st0
      {
        var m := MatchPattern(HANDLER_ORDER[i], line);
        FirstMatchStep(HANDLER_ORDER[i..], line);
        if !m.Unmatched? {
          err := Handle(m, line, ln);
          return;
        }
        assert HANDLER_ORDER[i..][1..] == HANDLER_ORDER[i + 1..];
        i := i + 1;
      }
      err := Handle(Unmatched, line, ln);
    }

    /** `check_dts`: every line of the file, numbered from 1 and without its
        trailing newlines, goes through `parse_line`; an exception ends the
        loop and is passed on. */
    method CheckDts(contents: seq<string>) returns (err: Option<StyleError>)
      modifies this
      ensures Outcome(Snapshot(), err) == Run(old(Snapshot()), contents)
      ensures old(Valid()) ==> Valid()
    {
      ghost var st0 := Snapshot();
      if KeysBelow(st0) {
        RunKeepsKeysBelow(st0, contents);
      }
      var f := new DtsFile(filename, contents);
      err := None;
      while true
        invariant fresh(f) && f.Valid() && f.contents == contents
        invariant Run(st0, contents[..f.lineno]) == Outcome(Snapshot(), None)
        decreases |contents| - f.lineno
      {
        var more;
        more, err := ParseNext(f, st0);
        if !more {
          break;
        }
        if err.Some? {
          RunRaisedAt(st0, contents, f.lineno);
          return;
        }
      }
      RunWhole(st0, contents, f.lineno);
    }

    /** One turn of the loop of `check_dts`: take the next numbered line from
        `f`, if there is one, and parse it without its trailing newlines. */
    method ParseNext(f: DtsFile, ghost st0: State) returns (more: bool, err: Option<StyleError>)
      requires f.Valid()
      requires Run(st0, f.contents[..f.lineno]) == Outcome(Snapshot(), None)
      modifies this, f
      ensures f.Valid()
      ensures more == (old(f.lineno) < |f.contents|)
      ensures more ==> f.lineno == old(f.lineno) + 1
      ensures more ==> Run(st0, f.contents[..f.lineno]) == Outcome(Snapshot(), err)
      ensures !more ==> f.lineno == old(f.lineno) && Snapshot() == old(Snapshot()) && err == None
    {
      var next := f.Next();
      if next.None? {
        return false, None;
      }
      var (line, lineno) := next.value;
      ghost var before := Snapshot();
      err := ParseLine(RStripNewlines(line), lineno);
      RunNext(st0, f.contents, lineno, before, Outcome(Snapshot(), err));
      more := true;
    }
  }
}
