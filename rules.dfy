/** The style rules of the checker: which warnings a header line draws, in
    which order, and how a node is compared with the sibling before it
    (dtschema/dts_style.py:54-133). */
module StyleRules {
  import opened Wrappers
  import opened Text
  import opened Hex
  import opened LineClassifier

  /** The warnings the checker can report, one per message text. */
  datatype Kind =
    | WhitespaceError
    | LabelHyphen
    | LabelUppercase
    | NameUnderscore
    | NameUppercase
    | AddrUppercase
    | AddrHexPrefix
    | AddrLeadingZero
    | OverridesNotSorted
    | AddrNotSorted
    | NamesNotSorted
    | Unhandled

  /** The message text the checker stores for each kind. */
  function Message(k: Kind): string
  {
    match k
    case WhitespaceError => "Whitespace error"
    case LabelHyphen => "Label: use underscores instead of hyphens"
    case LabelUppercase => "Label: only lowercase letters"
    case NameUnderscore => "Node name: use hyphens instead of underscores"
    case NameUppercase => "Node name: only lowercase letters"
    case AddrUppercase => "Unit address: only lowercase hex"
    case AddrHexPrefix => "Unit address: avoid \"0x\""
    case AddrLeadingZero => "Unit address: avoid leading \"0\""
    case OverridesNotSorted => "Node overrides do not look sorted alphanumerically"
    case AddrNotSorted => "Nodes do not look sorted by unit address"
    case NamesNotSorted => "Nodes do not look sorted alphanumerically"
    case Unhandled => "Dunno how to handle this yet"
  }

  /** One entry of the warning list: `[message, line, ln]`. */
  datatype Warning = Warning(kind: Kind, line: string, lineNo: int)

  /** What is remembered of a header at its depth: `{nodename, unitaddr,
      label}`, with the empty string for a missing group. */
  datatype Marker = Marker(nodename: string, unitaddr: string, labelText: string)

  /** The exceptions the checker raises. */
  datatype StyleError =
    | PatchInput                 // a .diff or .patch file name
    | MissingLabel               // `'-' in None` for a label-less override line
    | BadUnitAddress(text: string)  // `int(text, 16)` fails

  // ---------------------------------------------------------------------
  // Lists of checks and the warnings they fire

  /** One `if condition: append(kind)` of a handler. */
  datatype Check = Check(kind: Kind, holds: bool)

  /** The kinds of the checks that hold, in the order the checks are made. */
  function Fired(cs: seq<Check>): (ks: seq<Kind>)
    ensures |ks| <= |cs|
  {
    if cs == [] then [] else (if cs[0].holds then [cs[0].kind] else []) + Fired(cs[1..])
  }

  function Kinds(cs: seq<Check>): (ks: seq<Kind>)
    ensures |ks| == |cs| && forall i :: 0 <= i < |cs| ==> ks[i] == cs[i].kind
  {
    seq(|cs|, i requires 0 <= i < |cs| => cs[i].kind)
  }

  /** `a` is `b` with some entries left out. */
  predicate IsSubseq<T(==)>(a: seq<T>, b: seq<T>)
    decreases |b|
  {
    if a == [] then true
    else if b == [] then false
    else if a[0] == b[0] then IsSubseq(a[1..], b[1..])
    else IsSubseq(a, b[1..])
  }

  /** Putting an entry in front of `b` keeps `a` a subsequence of it. */
  lemma {:induction false} SubseqSkip<T>(a: seq<T>, x: T, b: seq<T>)
    requires IsSubseq(a, b)
    ensures IsSubseq(a, [x] + b)
    decreases |b|, 1
  {
    var xb := [x] + b;
    assert xb[1..] == b;
    if a != [] && a[0] == x {
      assert b != [];
      if a[0] == b[0] {
        SubseqSkip(a[1..], b[0], b[1..]);
        assert [b[0]] + b[1..] == b;
      } else {
        SubseqTail(a, b);
      }
    }
  }

  /** Dropping the head of a subsequence keeps it a subsequence. */
  lemma {:induction false} SubseqTail<T>(a: seq<T>, b: seq<T>)
    requires a != [] && IsSubseq(a, b)
    ensures IsSubseq(a[1..], b)
    decreases |b|, 0
  {
    if a[0] == b[0] {
      if a[1..] != [] {
        SubseqSkip(a[1..], b[0], b[1..]);
        assert [b[0]] + b[1..] == b;
      }
    } else {
      SubseqTail(a, b[1..]);
      if a[1..] != [] {
        SubseqSkip(a[1..], b[0], b[1..]);
        assert [b[0]] + b[1..] == b;
      }
    }
  }

  lemma {:induction false} FiredConcat(a: seq<Check>, b: seq<Check>)
    ensures Fired(a + b) == Fired(a) + Fired(b)
    decreases |a|
  {
    if a != [] {
      assert (a + b)[1..] == a[1..] + b;
      FiredConcat(a[1..], b);
    } else {
      assert a + b == b;
    }
  }

  /** The warnings come out in the order the checks are written, with the
      checks that do not hold left out. */
  lemma {:induction false} FiredInOrder(cs: seq<Check>)
    ensures IsSubseq(Fired(cs), Kinds(cs))
    decreases |cs|
  {
    if cs != [] {
      FiredInOrder(cs[1..]);
      assert Kinds(cs)[1..] == Kinds(cs[1..]);
      if cs[0].holds {
        assert Fired(cs) == [cs[0].kind] + Fired(cs[1..]);
        assert Fired(cs)[1..] == Fired(cs[1..]);
      } else {
        assert Fired(cs) == Fired(cs[1..]);
        SubseqSkip(Fired(cs[1..]), cs[0].kind, Kinds(cs[1..]));
        assert [cs[0].kind] + Kinds(cs[1..]) == Kinds(cs);
      }
    }
  }

  /** A kind is reported exactly when one of its checks holds. */
  lemma {:induction false} FiredMember(cs: seq<Check>, k: Kind)
    ensures k in Fired(cs) <==> exists i :: 0 <= i < |cs| && cs[i] == Check(k, true)
    decreases |cs|
  {
    if cs != [] {
      FiredMember(cs[1..], k);
      if exists i :: 0 <= i < |cs[1..]| && cs[1..][i] == Check(k, true) {
        var i :| 0 <= i < |cs[1..]| && cs[1..][i] == Check(k, true);
        assert cs[i + 1] == Check(k, true);
      }
      if exists i :: 0 <= i < |cs| && cs[i] == Check(k, true) {
        var i :| 0 <= i < |cs| && cs[i] == Check(k, true);
        if i > 0 {
          assert cs[1..][i - 1] == Check(k, true);
        }
      }
    }
  }

  function Stamp(ks: seq<Kind>, line: string, ln: int): (ws: seq<Warning>)
    ensures |ws| == |ks|
    ensures forall i :: 0 <= i < |ks| ==> ws[i] == Warning(ks[i], line, ln)
  {
    seq(|ks|, i requires 0 <= i < |ks| => Warning(ks[i], line, ln))
  }

  // ---------------------------------------------------------------------
  // The unit-address rules

  /** `re.search('^0+[1-9a-f][0-9a-f]*$', u)`. The pattern leaves the
      regex engine no choice: `0+` cannot give back a zero, since
      `[1-9a-f]` must come next. */
  predicate LeadingZeroAddress(u: string)
  {
    var (zeros, rest) := TakeWhile(Zero, u);
    zeros != [] && rest != [] && IsLowerHexChar(rest[0]) && AllIn(LowerHex, rest[1..])
  }

  /** The rule fires exactly on lower-case hex that starts with `0` and is
      not all zeros: `0` and `00` pass, `0a` and `007` do not. */
  lemma LeadingZeroIff(u: string)
    ensures LeadingZeroAddress(u) <==>
              u != [] && u[0] == '0' && AllIn(LowerHex, u) && exists k :: 0 <= k < |u| && u[k] != '0'
  {
    var (zeros, rest) := TakeWhile(Zero, u);
    if LeadingZeroAddress(u) {
      assert u[|zeros|] == rest[0] && u[0] == zeros[0];
      forall k | 0 <= k < |u|
        ensures IsLowerHexChar(u[k])
      {
        if k < |zeros| {
          assert u[k] == zeros[k];
        } else if k > |zeros| {
          assert u[k] == rest[1..][k - |zeros| - 1];
        }
      }
    }
    if u != [] && u[0] == '0' && AllIn(LowerHex, u) && exists k :: 0 <= k < |u| && u[k] != '0' {
      var k :| 0 <= k < |u| && u[k] != '0';
      assert InClass(Zero, u[0]);
      TakeWhileStops(Zero, u, k);
      assert rest[0] == u[|zeros|];
      forall j | 0 <= j < |rest[1..]|
        ensures IsLowerHexChar(rest[1..][j])
      {
        assert rest[1..][j] == u[|zeros| + 1 + j];
      }
    }
  }

  lemma LeadingZeroExamples()
    ensures !LeadingZeroAddress("0") && !LeadingZeroAddress("00")
    ensures LeadingZeroAddress("0a") && LeadingZeroAddress("007")
    ensures !LeadingZeroAddress("a0") && !LeadingZeroAddress("0A")
  {
    LeadingZeroIff("0");
    LeadingZeroIff("00");
    LeadingZeroIff("0a");
    LeadingZeroIff("007");
    assert "0a"[1] != '0' && "007"[2] != '0';
    LeadingZeroIff("a0");
    LeadingZeroIff("0A");
    assert !IsLowerHexChar("0A"[1]);
  }

  // ---------------------------------------------------------------------
  // Checks on a node header line, dts_style.py:85-108

  /** The checks `check_node_name` makes, in the order it makes them. A
      missing label or unit address is the empty string, and its checks
      never hold. */
  function NodeNameChecks(h: NodeHeader): seq<Check>
  {
    var lbl, addr := h.labelText, h.unitaddr;
    [ Check(WhitespaceError, lbl != [] && h.s1 != " "),
      Check(LabelHyphen, lbl != [] && '-' in lbl),
      Check(LabelUppercase, lbl != [] && HasUpper(lbl)),
      Check(WhitespaceError, h.s2 != " " || h.s3 != []),
      Check(NameUnderscore, '_' in h.nodename),
      Check(NameUppercase, HasUpper(h.nodename)),
      Check(AddrUppercase, addr != [] && HasUpperHex(addr)),
      Check(AddrHexPrefix, addr != [] && HasHexMarker(addr)),
      Check(AddrLeadingZero, addr != [] && LeadingZeroAddress(addr)) ]
  }

  /** One `if ...: warnings.append(...)` statement. */
  function Emit(ws: seq<Warning>, c: Check, line: string, ln: int): seq<Warning>
  {
    if c.holds then ws + [Warning(c.kind, line, ln)] else ws
  }

  /** The first such statement of a list of checks. */
  lemma EmitOne(ws: seq<Warning>, cs: seq<Check>, line: string, ln: int)
    requires |cs| >= 1
    ensures Emit(ws, cs[0], line, ln) == ws + Stamp(Fired(cs[..1]), line, ln)
  {
    assert cs[..0] == [];
    ReportNext(ws, cs, 0, line, ln);
  }

  /** Three such statements in a row append the warnings of the checks
      that hold, in order. */
  lemma EmitThree(ws: seq<Warning>, cs: seq<Check>, line: string, ln: int)
    requires |cs| == 3
    ensures Emit(Emit(Emit(ws, cs[0], line, ln), cs[1], line, ln), cs[2], line, ln) == ws + Stamp(Fired(cs), line, ln)
  {
    assert Fired(cs[..3]) == Fired(cs) by {
      assert cs[..3] == cs;
    }
    EmitOne(ws, cs, line, ln);
    EmitNext(ws, cs, 1, line, ln);
    EmitNext(ws, cs, 2, line, ln);
  }

  /** After the statements for the checks before `j`, the statement for
      check `j`. */
  lemma EmitNext(ws: seq<Warning>, cs: seq<Check>, j: nat, line: string, ln: int)
    requires j < |cs|
    ensures Emit(ws + Stamp(Fired(cs[..j]), line, ln), cs[j], line, ln) == ws + Stamp(Fired(cs[..j + 1]), line, ln)
  {
    ReportNext(ws, cs, j, line, ln);
  }

  lemma StampConcat(a: seq<Kind>, b: seq<Kind>, line: string, ln: int)
    ensures Stamp(a + b, line, ln) == Stamp(a, line, ln) + Stamp(b, line, ln)
  {
  }

  /** `check_node_name` makes its checks in three runs: the label's (each
      guarded by there being a label), the blanks' and the name's, and the
      unit address's (each guarded by there being one). */
  lemma NodeNameRuns(ws: seq<Warning>, h: NodeHeader, line: string, ln: int)
    ensures var cs := NodeNameChecks(h);
            ws + Stamp(Fired(cs), line, ln)
            == ((ws + Stamp(Fired(cs[..3]), line, ln)) + Stamp(Fired(cs[3..6]), line, ln)) + Stamp(Fired(cs[6..]), line, ln)
  {
    var cs := NodeNameChecks(h);
    assert cs == cs[..3] + cs[3..6] + cs[6..];
    FiredConcat(cs[..3] + cs[3..6], cs[6..]);
    FiredConcat(cs[..3], cs[3..6]);
    StampConcat(Fired(cs[..3]) + Fired(cs[3..6]), Fired(cs[6..]), line, ln);
    StampConcat(Fired(cs[..3]), Fired(cs[3..6]), line, ln);
  }

  /** The fixed order of the name warnings. */
  const NODE_NAME_ORDER: seq<Kind> :=
    [ WhitespaceError, LabelHyphen, LabelUppercase, WhitespaceError, NameUnderscore,
      NameUppercase, AddrUppercase, AddrHexPrefix, AddrLeadingZero ]

  /** The warnings a node header draws before it is compared with its
      sibling. */
  function NodeNameKinds(h: NodeHeader): seq<Kind>
  {
    Fired(NodeNameChecks(h))
  }

  function FireOne(c: Check): seq<Kind>
  {
    if c.holds then [c.kind] else []
  }

  /** Fired on a list split after its first check. */
  lemma FiredHead(cs: seq<Check>)
    requires cs != []
    ensures Fired(cs) == FireOne(cs[0]) + Fired(cs[1..])
  {
  }

  /** The warnings of the checks up to `j`, then check `j`: the shape of a
      run of `if ...: warnings.append(...)` statements. */
  lemma ReportNext(ws: seq<Warning>, cs: seq<Check>, j: nat, line: string, ln: int)
    requires j < |cs|
    ensures ws + Stamp(Fired(cs[..j + 1]), line, ln)
            == (ws + Stamp(Fired(cs[..j]), line, ln)) + (if cs[j].holds then [Warning(cs[j].kind, line, ln)] else [])
  {
    assert cs[..j + 1] == cs[..j] + [cs[j]];
    FiredConcat(cs[..j], [cs[j]]);
    FiredHead([cs[j]]);
    assert [cs[j]][1..] == [];
  }

  /** `check_node_name`'s warnings come out in the fixed order. */
  lemma NodeNameOrder(h: NodeHeader)
    ensures IsSubseq(NodeNameKinds(h), NODE_NAME_ORDER)
  {
    var cs := NodeNameChecks(h);
    FiredInOrder(cs);
    assert Kinds(cs) == NODE_NAME_ORDER;
  }

  /** Each of `check_node_name`'s label warnings fires exactly when its
      condition holds. */
  lemma NodeLabelMembers(h: NodeHeader)
    ensures LabelHyphen in NodeNameKinds(h) <==> h.labelText != [] && '-' in h.labelText
    ensures LabelUppercase in NodeNameKinds(h) <==> h.labelText != [] && HasUpper(h.labelText)
  {
    var cs := NodeNameChecks(h);
    FiredMember(cs, LabelHyphen);
    FiredMember(cs, LabelUppercase);
    assert cs[1].kind == LabelHyphen && cs[2].kind == LabelUppercase;
  }

  /** The same for the node-name warnings. */
  lemma NodeNameMembers(h: NodeHeader)
    ensures NameUnderscore in NodeNameKinds(h) <==> '_' in h.nodename
    ensures NameUppercase in NodeNameKinds(h) <==> HasUpper(h.nodename)
  {
    var cs := NodeNameChecks(h);
    FiredMember(cs, NameUnderscore);
    FiredMember(cs, NameUppercase);
    assert cs[4].kind == NameUnderscore && cs[5].kind == NameUppercase;
  }

  /** The same for the unit-address warnings. */
  lemma UnitAddressMembers(h: NodeHeader)
    ensures AddrUppercase in NodeNameKinds(h) <==> h.unitaddr != [] && HasUpperHex(h.unitaddr)
    ensures AddrHexPrefix in NodeNameKinds(h) <==> h.unitaddr != [] && HasHexMarker(h.unitaddr)
    ensures AddrLeadingZero in NodeNameKinds(h) <==> h.unitaddr != [] && LeadingZeroAddress(h.unitaddr)
  {
    var cs := NodeNameChecks(h);
    FiredMember(cs, AddrUppercase);
    FiredMember(cs, AddrHexPrefix);
    FiredMember(cs, AddrLeadingZero);
    assert cs[6].kind == AddrUppercase && cs[7].kind == AddrHexPrefix && cs[8].kind == AddrLeadingZero;
  }

  /** A kind that only the first and the fourth of a list of checks can
      fire is reported once for each of them that holds. */
  /** Checks of other kinds never report `k`. */
  lemma FireOneCount(c: Check, k: Kind)
    ensures multiset(FireOne(c))[k] == if c.holds && c.kind == k then 1 else 0
  {
  }

  /** Of three checks whose last two are of other kinds, only the first can
      report `k`. */
  lemma CountFirstOfThree(cs: seq<Check>, k: Kind)
    requires |cs| == 3 && cs[1].kind != k && cs[2].kind != k
    ensures multiset(Fired(cs))[k] == if cs[0].holds && cs[0].kind == k then 1 else 0
  {
    FiredThree(cs);
    var a, b, c := FireOne(cs[0]), FireOne(cs[1]), FireOne(cs[2]);
    assert multiset(a + b + c) == multiset(a) + multiset(b) + multiset(c);
    FireOneCount(cs[0], k);
    FireOneCount(cs[1], k);
    FireOneCount(cs[2], k);
  }

  /** One whitespace warning for the blank after a label, one for the blanks
      around the brace. */
  lemma NodeNameWhitespace(h: NodeHeader)
    ensures multiset(NodeNameKinds(h))[WhitespaceError] ==
              (if h.labelText != [] && h.s1 != " " then 1 else 0) + (if h.s2 != " " || h.s3 != [] then 1 else 0)
  {
    var cs := NodeNameChecks(h);
    var a, b, c := cs[..3], cs[3..6], cs[6..];
    assert cs == a + b + c;
    FiredConcat(a + b, c);
    FiredConcat(a, b);
    CountFirstOfThree(a, WhitespaceError);
    CountFirstOfThree(b, WhitespaceError);
    CountFirstOfThree(c, WhitespaceError);
  }

  // ---------------------------------------------------------------------
  // Checks on an override line, dts_style.py:118-125

  /** The checks `check_label` makes, in order. */
  function OverrideChecks(x: OverrideHeader): seq<Check>
  {
    [ Check(WhitespaceError, x.s1 != [] || x.s2 != " " || x.s3 != []),
      Check(LabelHyphen, '-' in x.labelText),
      Check(LabelUppercase, HasUpper(x.labelText)) ]
  }

  lemma OverrideWarnings(x: OverrideHeader)
    ensures Fired(OverrideChecks(x)[..1]) ==
              if x.s1 != [] || x.s2 != " " || x.s3 != [] then [WhitespaceError] else []
    ensures IsSubseq(Fired(OverrideChecks(x)), [WhitespaceError, LabelHyphen, LabelUppercase])
    ensures WhitespaceError in Fired(OverrideChecks(x)) <==> x.s1 != [] || x.s2 != " " || x.s3 != []
    ensures LabelHyphen in Fired(OverrideChecks(x)) <==> '-' in x.labelText
    ensures LabelUppercase in Fired(OverrideChecks(x)) <==> HasUpper(x.labelText)
  {
    OverrideMembers(x);
    var cs := OverrideChecks(x);
    assert IsSubseq(Fired(cs), [WhitespaceError, LabelHyphen, LabelUppercase]) by {
      FiredInOrder(cs);
      assert Kinds(cs) == [WhitespaceError, LabelHyphen, LabelUppercase];
    }
    FiredHead(cs[..1]);
    assert cs[..1][1..] == [];
  }

  /** Each override warning is reported exactly when its condition holds. */
  lemma OverrideMembers(x: OverrideHeader)
    ensures WhitespaceError in Fired(OverrideChecks(x)) <==> x.s1 != [] || x.s2 != " " || x.s3 != []
    ensures LabelHyphen in Fired(OverrideChecks(x)) <==> '-' in x.labelText
    ensures LabelUppercase in Fired(OverrideChecks(x)) <==> HasUpper(x.labelText)
  {
    FiredThree(OverrideChecks(x));
  }

  lemma FiredThree(cs: seq<Check>)
    requires |cs| == 3
    ensures Fired(cs) == FireOne(cs[0]) + FireOne(cs[1]) + FireOne(cs[2])
  {
    FiredHead(cs);
    FiredHead(cs[1..]);
    FiredHead(cs[1..][1..]);
    assert cs[1..][1..][1..] == [];
  }

  // ---------------------------------------------------------------------
  // Sibling order, dts_style.py:54-83

  /** The four warnings only the sibling comparison reports. */
  predicate IsSortingKind(k: Kind)
  {
    k == OverridesNotSorted || k == AddrNotSorted || k == NamesNotSorted || k == Unhandled
  }

  /** `check_node_sorting`: the warning (if any) that comparing `node` with
      the marker kept at depth `nested` draws, or the ValueError of a unit
      address that is no hex number (the new node's is converted first). */
  function SortingCheck(prevNode: map<int, Marker>, nested: int, node: Marker): (r: Result<Option<Kind>, StyleError>)
    ensures r.Success? && r.value.Some? ==> IsSortingKind(r.value.value)
  {
    if nested !in prevNode then Success(None)
    else
      var prev := prevNode[nested];
      if node.labelText != [] && prev.labelText != [] then
        Success(if LexLess(node.labelText, prev.labelText) then Some(OverridesNotSorted) else None)
      else if node.unitaddr != [] && prev.unitaddr != [] then
        match (ParseAddress(node.unitaddr), ParseAddress(prev.unitaddr))
        case (None, _) => Failure(BadUnitAddress(node.unitaddr))
        case (_, None) => Failure(BadUnitAddress(prev.unitaddr))
        case (Some(a), Some(b)) => Success(if a < b then Some(AddrNotSorted) else None)
      else if node.nodename != [] && prev.nodename != [] then
        if prev.unitaddr != [] then Success(None)
        else if LexLess(node.nodename, prev.nodename) then
          var overrideByLabel := (nested - 1) in prevNode && prevNode[nested - 1].labelText != [];
          Success(if nested < 2 && !overrideByLabel then Some(NamesNotSorted) else None)
        else Success(None)
      else
        Success(Some(Unhandled))
  }

  /** Names compare as strings, so `-10` sorts before `-9`. */
  lemma NameOrderExample()
    ensures SortingCheck(map[0 := Marker("-9", [], [])], 0, Marker("-10", [], [])) == Success(Some(NamesNotSorted))
  {
    assert LexLess("-10", "-9") by {
      assert "-10"[0] == "-9"[0] && "-10"[1..] == "10" && "-9"[1..] == "9";
      assert LexLess("10", "9");
    }
  }

  /** Unit addresses compare as numbers, so `@10` comes after `@9`; one
      that is no hex number raises. */
  lemma AddressOrderExamples()
    ensures SortingCheck(map[0 := Marker("c", "9", [])], 0, Marker("c", "10", [])) == Success(None)
    ensures SortingCheck(map[0 := Marker("c", "10", [])], 0, Marker("c", "9", [])) == Success(Some(AddrNotSorted))
    ensures SortingCheck(map[0 := Marker("c", "x1", [])], 0, Marker("c", "1", [])) == Failure(BadUnitAddress("x1"))
  {
    ParseAddressExamples();
    assert ParseAddress("9") == Some(9) && ParseAddress("1") == Some(1);
  }

  /** When the name rule compares two nodes at all. */
  predicate NameRuleApplies(prevNode: map<int, Marker>, nested: int)
    requires nested in prevNode
  {
    prevNode[nested].unitaddr == [] && nested < 2
    && !((nested - 1) in prevNode && prevNode[nested - 1].labelText != [])
  }

  /** The first sibling at a depth is compared with nothing. Otherwise at
      most one warning comes out, and which one depends on what the two
      markers have in common: both labels, both unit addresses, both names. */
  lemma SortingCheckCases(prevNode: map<int, Marker>, nested: int, node: Marker)
    ensures nested !in prevNode ==> SortingCheck(prevNode, nested, node) == Success(None)
    ensures nested in prevNode && node.labelText != [] && prevNode[nested].labelText != [] ==>
              SortingCheck(prevNode, nested, node)
              == Success(if LexLess(node.labelText, prevNode[nested].labelText) then Some(OverridesNotSorted) else None)
    ensures nested in prevNode && !(node.labelText != [] && prevNode[nested].labelText != [])
            && node.unitaddr != [] && prevNode[nested].unitaddr != [] ==>
              var (a, b) := (ParseAddress(node.unitaddr), ParseAddress(prevNode[nested].unitaddr));
              && (SortingCheck(prevNode, nested, node).Failure? <==> a.None? || b.None?)
              && (a.Some? && b.Some? ==>
                    SortingCheck(prevNode, nested, node) == Success(if a.value < b.value then Some(AddrNotSorted) else None))
    ensures nested in prevNode && !(node.labelText != [] && prevNode[nested].labelText != [])
            && !(node.unitaddr != [] && prevNode[nested].unitaddr != [])
            && node.nodename != [] && prevNode[nested].nodename != [] ==>
              SortingCheck(prevNode, nested, node)
              == Success(if NameRuleApplies(prevNode, nested) && LexLess(node.nodename, prevNode[nested].nodename)
                         then Some(NamesNotSorted) else None)
    ensures nested in prevNode && !(node.labelText != [] && prevNode[nested].labelText != [])
            && !(node.unitaddr != [] && prevNode[nested].unitaddr != [])
            && !(node.nodename != [] && prevNode[nested].nodename != []) ==>
              SortingCheck(prevNode, nested, node) == Success(Some(Unhandled))
  {
  }

  /** Whether a comparison reported `k`. */
  predicate Reports(r: Result<Option<Kind>, StyleError>, k: Kind)
  {
    r == Success(Some(k))
  }

  /** Overrides are ordered by label as a strict total order: of two
      different sibling labels exactly one order is reported, and a label
      repeated is not. */
  lemma LabelOrderIsStrict(pm: map<int, Marker>, d: int, m: Marker, n: Marker)
    requires m.labelText != [] && n.labelText != []
    ensures SortingCheck(pm[d := m], d, n).Success? && SortingCheck(pm[d := n], d, m).Success?
    ensures m.labelText == n.labelText ==> !Reports(SortingCheck(pm[d := m], d, n), OverridesNotSorted)
    ensures m.labelText != n.labelText ==>
              (Reports(SortingCheck(pm[d := m], d, n), OverridesNotSorted)
               <==> !Reports(SortingCheck(pm[d := n], d, m), OverridesNotSorted))
  {
    LexLessTrichotomy(n.labelText, m.labelText);
  }

  /** Nodes with unit addresses are ordered by the addresses' values: of two
      different values exactly one order is reported, and two spellings of
      the same value are never reported. */
  lemma AddressOrderIsStrict(pm: map<int, Marker>, d: int, m: Marker, n: Marker)
    requires !(m.labelText != [] && n.labelText != [])
    requires ParseAddress(m.unitaddr).Some? && ParseAddress(n.unitaddr).Some?
    requires m.unitaddr != [] && n.unitaddr != []
    ensures SortingCheck(pm[d := m], d, n).Success? && SortingCheck(pm[d := n], d, m).Success?
    ensures ParseAddress(m.unitaddr) == ParseAddress(n.unitaddr) ==>
              SortingCheck(pm[d := m], d, n) == Success(None) && SortingCheck(pm[d := n], d, m) == Success(None)
    ensures ParseAddress(m.unitaddr) != ParseAddress(n.unitaddr) ==>
              (Reports(SortingCheck(pm[d := m], d, n), AddrNotSorted)
               <==> !Reports(SortingCheck(pm[d := n], d, m), AddrNotSorted))
  {
  }

  /** Where the name rule applies (plain nodes near the top, not inside an
      override), nodes are ordered by name as a strict total order. */
  lemma NameOrderIsStrict(pm: map<int, Marker>, d: int, m: Marker, n: Marker)
    requires m.labelText == [] && n.labelText == [] && m.unitaddr == [] && n.unitaddr == []
    requires m.nodename != [] && n.nodename != []
    requires d < 2 && !((d - 1) in pm && pm[d - 1].labelText != [])
    ensures SortingCheck(pm[d := m], d, n).Success? && SortingCheck(pm[d := n], d, m).Success?
    ensures m.nodename == n.nodename ==> !Reports(SortingCheck(pm[d := m], d, n), NamesNotSorted)
    ensures m.nodename != n.nodename ==>
              (Reports(SortingCheck(pm[d := m], d, n), NamesNotSorted)
               <==> !Reports(SortingCheck(pm[d := n], d, m), NamesNotSorted))
  {
    LexLessTrichotomy(n.nodename, m.nodename);
    assert pm[d := m][d - 1] == pm[d - 1] <== (d - 1) in pm;
    assert pm[d := n][d - 1] == pm[d - 1] <== (d - 1) in pm;
  }

  /** Only a unit-address comparison can raise, and only over an address
      that is no hex number. */
  lemma SortingCheckFails(prevNode: map<int, Marker>, nested: int, node: Marker)
    requires SortingCheck(prevNode, nested, node).Failure?
    ensures nested in prevNode && node.unitaddr != [] && prevNode[nested].unitaddr != []
    ensures SortingCheck(prevNode, nested, node).error == BadUnitAddress(node.unitaddr)
            || SortingCheck(prevNode, nested, node).error == BadUnitAddress(prevNode[nested].unitaddr)
    ensures var e := SortingCheck(prevNode, nested, node).error.text; ParseAddress(e).None?
  {
  }
}
