/** Character classes, runs of characters and string order: the pieces the
    regular expressions of the style checker are built from, written out by
    hand. */
module Text {

  /** Python's `\s` on str patterns: exactly the characters for which
      str.isspace() holds. */
  predicate IsSpace(c: char)
  {
    var n := c as int;
    (0x09 <= n <= 0x0D) || (0x1C <= n <= 0x20) || n == 0x85 || n == 0xA0
    || n == 0x1680 || (0x2000 <= n <= 0x200A) || n == 0x2028 || n == 0x2029
    || n == 0x202F || n == 0x205F || n == 0x3000
  }

  /** `[a-zA-Z0-9,_-]`: the characters of labels and node names. */
  predicate IsIdentChar(c: char)
  {
    ('a' <= c <= 'z') || ('A' <= c <= 'Z') || ('0' <= c <= '9')
    || c == ',' || c == '_' || c == '-'
  }

  /** `[0-9a-fA-FxX]`: the characters a unit address is made of. */
  predicate IsAddrChar(c: char)
  {
    ('0' <= c <= '9') || ('a' <= c <= 'f') || ('A' <= c <= 'F') || c == 'x' || c == 'X'
  }

  /** `[0-9a-f]` */
  predicate IsLowerHexChar(c: char)
  {
    ('0' <= c <= '9') || ('a' <= c <= 'f')
  }

  /** The classes whose maximal runs the line patterns consume. */
  datatype CharClass = Space | Ident | Addr | LowerHex | Zero

  predicate InClass(cls: CharClass, c: char)
  {
    match cls
    case Space => IsSpace(c)
    case Ident => IsIdentChar(c)
    case Addr => IsAddrChar(c)
    case LowerHex => IsLowerHexChar(c)
    case Zero => c == '0'
  }

  predicate AllIn(cls: CharClass, s: string)
  {
    forall k :: 0 <= k < |s| ==> InClass(cls, s[k])
  }

  /** `[A-Z]` occurs somewhere in `s` (`re.search('[A-Z]', s)`). */
  predicate HasUpper(s: string)
  {
    exists k :: 0 <= k < |s| && 'A' <= s[k] <= 'Z'
  }

  /** `[A-F]` occurs somewhere in `s`. */
  predicate HasUpperHex(s: string)
  {
    exists k :: 0 <= k < |s| && 'A' <= s[k] <= 'F'
  }

  /** `[xX]` occurs somewhere in `s`. */
  predicate HasHexMarker(s: string)
  {
    'x' in s || 'X' in s
  }

  /** Splits off the longest prefix of `s` made of `cls` characters: what a
      greedy `[...]*` consumes. */
  function TakeWhile(cls: CharClass, s: string): (r: (string, string))
    ensures r.0 + r.1 == s
    ensures AllIn(cls, r.0)
    ensures r.1 == [] || !InClass(cls, r.1[0])
  {
    if s != [] && InClass(cls, s[0]) then
      var (run, rest) := TakeWhile(cls, s[1..]);
      assert [s[0]] + (run + rest) == s;
      ([s[0]] + run, rest)
    else
      ([], s)
  }

  /** A split into a run of `cls` and a rest that does not start with `cls`
      is the one TakeWhile finds: the greedy run leaves no choice. */
  lemma {:induction false} TakeWhileUnique(cls: CharClass, run: string, rest: string)
    requires AllIn(cls, run)
    requires rest == [] || !InClass(cls, rest[0])
    ensures TakeWhile(cls, run + rest) == (run, rest)
  {
    if run != [] {
      var s := run + rest;
      assert s[0] == run[0] && s[1..] == run[1..] + rest;
      TakeWhileUnique(cls, run[1..], rest);
      assert [run[0]] + run[1..] == run;
    } else {
      assert run + rest == rest;
    }
  }

  /** The greedy run ends at the first character outside the class. */
  lemma {:induction false} TakeWhileStops(cls: CharClass, s: string, k: int)
    requires 0 <= k < |s| && !InClass(cls, s[k])
    ensures |TakeWhile(cls, s).0| <= k
    decreases k
  {
    if InClass(cls, s[0]) {
      TakeWhileStops(cls, s[1..], k - 1);
    }
  }

  /** Splits off the longest suffix of `s` made of `cls` characters. */
  function SplitTrailing(cls: CharClass, s: string): (r: (string, string))
    ensures r.0 + r.1 == s
    ensures AllIn(cls, r.1)
    ensures r.0 == [] || !InClass(cls, r.0[|r.0| - 1])
    decreases |s|
  {
    if s != [] && InClass(cls, s[|s| - 1]) then
      var (body, tail) := SplitTrailing(cls, s[..|s| - 1]);
      assert body + (tail + [s[|s| - 1]]) == s[..|s| - 1] + [s[|s| - 1]] == s;
      (body, tail + [s[|s| - 1]])
    else
      (s, [])
  }

  /** `s.rstrip('\n')`: every trailing newline removed, nothing else. */
  function RStripNewlines(s: string): (r: string)
    ensures |r| <= |s| && r == s[..|r|]
    ensures forall k :: |r| <= k < |s| ==> s[k] == '\n'
    ensures r == [] || r[|r| - 1] != '\n'
    decreases |s|
  {
    if s != [] && s[|s| - 1] == '\n' then RStripNewlines(s[..|s| - 1]) else s
  }

  /** Python's `<` on str: lexicographic order of code points. (Dafny's own
      `<` on sequences is "proper prefix of", a different relation.) */
  predicate LexLess(a: string, b: string)
    decreases |a|
  {
    if b == [] then false
    else if a == [] then true
    else if a[0] != b[0] then a[0] < b[0]
    else LexLess(a[1..], b[1..])
  }

  /** `a` and `b` agree on their first `k` characters and `k` is where `a`
      first falls below `b` (or `a` ends while `b` goes on). */
  ghost predicate LexLessAt(a: string, b: string, k: nat)
  {
    k <= |a| && k <= |b| && a[..k] == b[..k]
    && ((k == |a| && k < |b|) || (k < |a| && k < |b| && a[k] < b[k]))
  }

  /** A witness past position 0 means a shared first character and a
      witness one position further into both tails. */
  lemma LexLessAtTail(a: string, b: string, k: nat)
    requires LexLessAt(a, b, k) && k > 0
    ensures a != [] && b != [] && a[0] == b[0] && LexLessAt(a[1..], b[1..], k - 1)
  {
    assert a[0] == a[..k][0] && b[0] == b[..k][0];
    assert a[1..][..k - 1] == a[..k][1..] && b[1..][..k - 1] == b[..k][1..];
  }

  lemma {:induction false} LexLessFromWitness(a: string, b: string, k: nat)
    requires LexLessAt(a, b, k)
    ensures LexLess(a, b)
    decreases k
  {
    if k > 0 {
      LexLessAtTail(a, b, k);
      LexLessFromWitness(a[1..], b[1..], k - 1);
    }
  }

  lemma {:induction false} LexLessWitness(a: string, b: string) returns (k: nat)
    requires LexLess(a, b)
    ensures LexLessAt(a, b, k)
    decreases |a|
  {
    if a == [] || a[0] != b[0] {
      k := 0;
    } else {
      var j := LexLessWitness(a[1..], b[1..]);
      assert a == [a[0]] + a[1..] && b == [b[0]] + b[1..];
      assert a[..j + 1] == [a[0]] + a[1..][..j];
      assert b[..j + 1] == [b[0]] + b[1..][..j];
      k := j + 1;
    }
  }

  /** LexLess is exactly the textbook definition of lexicographic order. */
  lemma LexLessIff(a: string, b: string)
    ensures LexLess(a, b) <==> exists k: nat :: LexLessAt(a, b, k)
  {
    if LexLess(a, b) {
      var k := LexLessWitness(a, b);
    }
    if exists k: nat :: LexLessAt(a, b, k) {
      var k: nat :| LexLessAt(a, b, k);
      LexLessFromWitness(a, b, k);
    }
  }

  /** LexLess is a strict total order: a string is never below itself, and of
      two different strings exactly one is below the other. */
  lemma {:induction false} LexLessTrichotomy(a: string, b: string)
    ensures a == b ==> !LexLess(a, b)
    ensures a != b ==> (LexLess(a, b) <==> !LexLess(b, a))
    decreases |a|
  {
    if a != [] && b != [] && a[0] == b[0] {
      LexLessTrichotomy(a[1..], b[1..]);
      assert a == [a[0]] + a[1..] && b == [b[0]] + b[1..];
    }
  }

  /** A shared first character does not change the order. */
  lemma LexLessCons(c: char, a: string, b: string)
    ensures LexLess([c] + a, [c] + b) == LexLess(a, b)
  {
    assert ([c] + a)[1..] == a && ([c] + b)[1..] == b;
  }
}
