/**
 The text post-pass that the peripheral-access crate's build script applies to
 the source svd2rust generates before saving it as src/pac.rs:

   1. every "] " becomes "]\n" (Replace);
   2. the text is split into lines as Rust's `str::lines` does (Lines);
   3. lines exactly equal to a deny-listed svd2rust artefact are dropped (Filter);
   4. each surviving line is written followed by one "\n" (Join).
 */
module PacText {

  /** The svd2rust artefacts the build script drops to silence warnings. */
  const DenyList: seq<string> := [
    "# ! [ deny ( legacy_directory_ownership ) ]",
    "# ! [ deny ( plugin_as_library ) ]",
    "# ! [ deny ( safe_extern_statics ) ]",
    "# ! [ deny ( unions_with_drop_fields ) ]",
    "#![no_main]",
    "# ! [ no_std ]"
  ]

  // ---------------------------------------------------------------------------
  // Step 1: the "] " -> "]\n" rewrite
  // ---------------------------------------------------------------------------

  /** True when some ']' in `s` is directly followed by a ' '. */
  predicate HasBracketSpace(s: string) {
    exists i :: 0 <= i < |s| - 1 && s[i] == ']' && s[i + 1] == ' '
  }

  /** `s.replace("] ", "]\n")`: occurrences are found left to right and never overlap. */
  function Replace(s: string): (r: string)
    ensures |r| == |s|
    decreases |s|
  {
    if |s| < 2 then s
    else if s[0] == ']' && s[1] == ' ' then "]\n" + Replace(s[2..])
    else [s[0]] + Replace(s[1..])
  }

  /** The character found at index `i` after the rewrite, stated position by position. */
  function RewrittenAt(s: string, i: nat): char
    requires i < |s|
  {
    if 0 < i && s[i - 1] == ']' && s[i] == ' ' then '\n' else s[i]
  }

  /** The rewrite changes exactly the spaces that directly follow a ']', into '\n'. */
  lemma {:induction false} ReplaceAt(s: string, i: nat)
    requires i < |s|
    ensures Replace(s)[i] == RewrittenAt(s, i)
    decreases |s|
  {
    if |s| < 2 {
    } else if s[0] == ']' && s[1] == ' ' {
      if i >= 2 {
        ReplaceAt(s[2..], i - 2);
      }
    } else if i >= 1 {
      ReplaceAt(s[1..], i - 1);
    }
  }

  /** After the rewrite the text holds no "] " at all. */
  lemma ReplaceRemovesBracketSpace(s: string)
    ensures !HasBracketSpace(Replace(s))
  {
    var r := Replace(s);
    forall i | 0 <= i < |r| - 1
      ensures !(r[i] == ']' && r[i + 1] == ' ')
    {
      ReplaceAt(s, i);
      ReplaceAt(s, i + 1);
    }
  }

  /** The rewrite leaves a text unchanged exactly when it holds no "] ". */
  lemma ReplaceFixedPoint(s: string)
    ensures Replace(s) == s <==> !HasBracketSpace(s)
  {
    if HasBracketSpace(s) {
      var i :| 0 <= i < |s| - 1 && s[i] == ']' && s[i + 1] == ' ';
      ReplaceAt(s, i + 1);
      assert Replace(s)[i + 1] != s[i + 1];
    } else {
      forall i | 0 <= i < |s|
        ensures Replace(s)[i] == s[i]
      {
        ReplaceAt(s, i);
      }
    }
  }

  /** Rewriting twice is rewriting once. */
  lemma ReplaceIdempotent(s: string)
    ensures Replace(Replace(s)) == Replace(s)
  {
    ReplaceRemovesBracketSpace(s);
    ReplaceFixedPoint(Replace(s));
  }

  /** Position by position, a cut that does not separate "] " leaves each part's rewrite alone. */
  lemma RewrittenAtAppend(a: string, b: string, i: nat)
    requires a == [] || b == [] || !(a[|a| - 1] == ']' && b[0] == ' ')
    requires i < |a + b|
    ensures RewrittenAt(a + b, i) == if i < |a| then RewrittenAt(a, i) else RewrittenAt(b, i - |a|)
  {
    var s := a + b;
    if i < |a| {
      assert s[i] == a[i] && (0 < i ==> s[i - 1] == a[i - 1]);
    } else {
      assert s[i] == b[i - |a|];
      assert i > |a| ==> s[i - 1] == b[i - |a| - 1];
      assert i == |a| && 0 < i ==> s[i - 1] == a[|a| - 1];
    }
  }

  /**
   The rewrite works piece by piece wherever a cut does not separate a ']' from
   the ' ' after it.
   */
  lemma ReplaceAppend(a: string, b: string)
    requires a == [] || b == [] || !(a[|a| - 1] == ']' && b[0] == ' ')
    ensures Replace(a + b) == Replace(a) + Replace(b)
  {
    var s, r := a + b, Replace(a) + Replace(b);
    forall i | 0 <= i < |s|
      ensures Replace(s)[i] == r[i]
    {
      ReplaceAt(s, i);
      RewrittenAtAppend(a, b, i);
      if i < |a| {
        ReplaceAt(a, i);
      } else {
        ReplaceAt(b, i - |a|);
      }
    }
  }

  /** A '\n' already in the text cuts it into two parts that are rewritten independently. */
  lemma ReplaceLineBreak(a: string, b: string)
    ensures Replace(a + "\n" + b) == Replace(a) + "\n" + Replace(b)
  {
    assert a + "\n" + b == a + ("\n" + b);
    ReplaceAppend(a, "\n" + b);
    ReplaceAppend("\n", b);
  }

  // ---------------------------------------------------------------------------
  // Step 2: Rust's `str::lines`
  // ---------------------------------------------------------------------------

  /** Index of the first '\n' of `s`, or `|s|` when there is none. */
  function NewlineIndex(s: string): (k: nat)
    ensures k <= |s|
    ensures k < |s| ==> s[k] == '\n'
    ensures forall j :: 0 <= j < k ==> s[j] != '\n'
  {
    if s == [] || s[0] == '\n' then 0 else 1 + NewlineIndex(s[1..])
  }

  /** Removes one '\r' from the end of a line that was terminated by "\r\n". */
  function StripCr(line: string): string {
    if line != [] && line[|line| - 1] == '\r' then line[..|line| - 1] else line
  }

  /**
   `s.lines()`: the text is cut after every '\n'; a line that was ended by "\r\n"
   loses the '\r'; the last line needs no terminator, so a final '\n' yields no
   empty line, and a bare '\r' at the very end is kept.
   */
  function Lines(s: string): (ls: seq<string>)
    ensures ls == [] <==> s == []
    ensures forall l :: l in ls ==> '\n' !in l
    decreases |s|
  {
    if s == [] then []
    else
      var k := NewlineIndex(s);
      if k == |s| then [s]
      else [StripCr(s[..k])] + Lines(s[k + 1..])
  }

  lemma NewlineIndexOf(a: string, b: string)
    requires '\n' !in a
    ensures NewlineIndex(a + "\n" + b) == |a|
  {
    var s := a + "\n" + b;
    assert s[|a|] == '\n';
    assert forall j :: 0 <= j < |a| ==> s[j] == a[j] && a[j] in a;
  }

  /** A line ended by '\n' is split off, with one '\r' before the '\n' removed. */
  lemma LinesSplit(a: string, b: string)
    requires '\n' !in a
    ensures Lines(a + "\n" + b) == [StripCr(a)] + Lines(b)
  {
    var s := a + "\n" + b;
    NewlineIndexOf(a, b);
    assert s[..|a|] == a;
    assert s[|a| + 1..] == b;
  }

  /** "\r\n" ends a line exactly as "\n" does, and the '\r' is not part of the line. */
  lemma LinesCrLf(a: string, b: string)
    requires '\n' !in a
    ensures Lines(a + "\r\n" + b) == [a] + Lines(b)
  {
    assert a + "\r\n" + b == (a + "\r") + "\n" + b;
    LinesSplit(a + "\r", b);
    assert StripCr(a + "\r") == a;
  }

  /** Non-empty text without any '\n' is one line, kept whole, a trailing '\r' included. */
  lemma LinesUnterminated(a: string)
    requires a != [] && '\n' !in a
    ensures Lines(a) == [a]
  {
    assert forall j :: 0 <= j < |a| ==> a[j] in a;
  }

  /** Number of '\n' characters in `s`. */
  function NewlineCount(s: string): nat {
    if s == [] then 0 else (if s[0] == '\n' then 1 else 0) + NewlineCount(s[1..])
  }

  lemma {:induction false} NewlineCountAppend(a: string, b: string)
    ensures NewlineCount(a + b) == NewlineCount(a) + NewlineCount(b)
    decreases |a|
  {
    if a == [] {
      assert a + b == b;
    } else {
      assert (a + b)[1..] == a[1..] + b;
      NewlineCountAppend(a[1..], b);
    }
  }

  lemma NewlineFreeCount(a: string)
    requires '\n' !in a
    ensures NewlineCount(a) == 0
    decreases |a|
  {
    if a != [] {
      assert forall c :: c in a[1..] ==> c in a;
      NewlineFreeCount(a[1..]);
    }
  }

  /** True when the last character of `s` is not a '\n': the last line is unterminated. */
  predicate HasUnterminatedLine(s: string) {
    s != [] && s[|s| - 1] != '\n'
  }

  /** A line break after a line without '\n' adds exactly one to the count. */
  lemma NewlineCountSplit(a: string, b: string)
    requires '\n' !in a
    ensures NewlineCount(a + "\n" + b) == 1 + NewlineCount(b)
  {
    NewlineFreeCount(a);
    assert a + "\n" + b == a + ("\n" + b);
    NewlineCountAppend(a, "\n" + b);
    assert ("\n" + b)[1..] == b;
  }

  /**
   There is one line per '\n', plus one for unterminated text at the end; in
   particular the empty text has no line and a final '\n' adds no empty line.
   */
  lemma {:induction false} LineCount(s: string)
    ensures |Lines(s)| == NewlineCount(s) + (if HasUnterminatedLine(s) then 1 else 0)
    decreases |s|
  {
    if s != [] {
      var k := NewlineIndex(s);
      assert '\n' !in s[..k];
      if k == |s| {
        assert s == s[..k];
        NewlineFreeCount(s);
      } else {
        var a, b := s[..k], s[k + 1..];
        assert s == a + "\n" + b;
        LinesSplit(a, b);
        NewlineCountSplit(a, b);
        LineCount(b);
        assert HasUnterminatedLine(s) == HasUnterminatedLine(b) by {
          if b != [] {
            assert s[|s| - 1] == b[|b| - 1];
          } else {
            assert s[|s| - 1] == '\n';
          }
        }
      }
    }
  }

  /** Appending '\n' to text whose last line is unterminated (and ends in neither '\r' nor '\n') adds no line. */
  lemma {:induction false} LinesTrailingNewline(s: string)
    requires HasUnterminatedLine(s) && s[|s| - 1] != '\r'
    ensures Lines(s + "\n") == Lines(s)
    decreases |s|
  {
    var k := NewlineIndex(s);
    assert '\n' !in s[..k];
    if k == |s| {
      assert s[..k] == s;
      assert s + "\n" == s + "\n" + [];
      LinesSplit(s, []);
      assert StripCr(s) == s;
      LinesUnterminated(s);
    } else {
      var a, b := s[..k], s[k + 1..];
      assert |b| > 0 && b[|b| - 1] == s[|s| - 1];
      assert s == a + "\n" + b;
      assert s + "\n" == a + "\n" + (b + "\n");
      LinesSplit(a, b);
      LinesSplit(a, b + "\n");
      LinesTrailingNewline(b);
      assert Lines(b + "\n") == Lines(b);
    }
  }

  // ---------------------------------------------------------------------------
  // Step 3: the deny-list filter
  // ---------------------------------------------------------------------------

  /** `!bad_strings.contains(&line)`: a line is kept unless it equals an entry of `deny`. */
  predicate Keep(line: string, deny: seq<string>): (kept: bool)
    ensures (forall b :: b in deny ==> DenyEntryShape(b)) && !DenyEntryShape(line) ==> kept
  {
    line !in deny
  }

  /** The lines that survive the filter, in their original order. */
  function Filter(ls: seq<string>, deny: seq<string>): (kept: seq<string>)
    ensures |kept| <= |ls|
  {
    if ls == [] then []
    else (if Keep(ls[0], deny) then [ls[0]] else []) + Filter(ls[1..], deny)
  }

  /** Every line the filter lets through is an input line that is not denied. */
  lemma {:induction false} FilterSound(ls: seq<string>, deny: seq<string>)
    ensures forall l :: l in Filter(ls, deny) ==> l in ls && Keep(l, deny)
  {
    if ls != [] {
      FilterSound(ls[1..], deny);
    }
  }

  /** A deny-list entry starts with '#', ends with its only ']' and holds no '\n'. */
  predicate DenyEntryShape(b: string) {
    |b| > 0 && b[0] == '#' && b[|b| - 1] == ']' && '\n' !in b && ']' !in b[..|b| - 1]
  }

  // One lemma per entry: checking all six literals in one proof is too costly.
  lemma DenyEntryShape0() ensures DenyEntryShape(DenyList[0]) {}
  lemma DenyEntryShape1() ensures DenyEntryShape(DenyList[1]) {}
  lemma DenyEntryShape2() ensures DenyEntryShape(DenyList[2]) {}
  lemma DenyEntryShape3() ensures DenyEntryShape(DenyList[3]) {}
  lemma DenyEntryShape4() ensures DenyEntryShape(DenyList[4]) {}
  lemma DenyEntryShape5() ensures DenyEntryShape(DenyList[5]) {}

  lemma DenyListShape()
    ensures forall b :: b in DenyList ==> DenyEntryShape(b)
  {
    DenyEntryShape0();
    DenyEntryShape1();
    DenyEntryShape2();
    DenyEntryShape3();
    DenyEntryShape4();
    DenyEntryShape5();
  }

  /**
   With the build script's deny list, a line that does not start with '#', does
   not end with its only ']', or holds a '\n' is never dropped.
   */
  lemma KeepOffShape(line: string)
    ensures !DenyEntryShape(line) ==> Keep(line, DenyList)
  {
    DenyListShape();
  }

  /**
   Matching is exact: no trimming, prefix or substring test. Text before the entry
   that does not start with '#' (leading blanks, say), or text after it that does
   not end with ']' (trailing blanks or a comment), makes the line kept.
   */
  lemma KeepNearMiss(pre: string, line: string, post: string)
    requires (pre != [] && pre[0] != '#') || (post != [] && post[|post| - 1] != ']')
    ensures Keep(pre + line + post, DenyList)
  {
    var t := pre + line + post;
    DenyListShape();
    if pre != [] && pre[0] != '#' {
      assert t[0] == pre[0];
    } else {
      assert t[|t| - 1] == post[|post| - 1];
    }
  }

  /** Filtering a concatenation filters each part. */
  lemma {:induction false} FilterAppend(a: seq<string>, b: seq<string>, deny: seq<string>)
    ensures Filter(a + b, deny) == Filter(a, deny) + Filter(b, deny)
    decreases |a|
  {
    if a == [] {
      assert a + b == b;
    } else {
      var head := if Keep(a[0], deny) then [a[0]] else [];
      assert (a + b)[0] == a[0] && (a + b)[1..] == a[1..] + b;
      assert Filter(a + b, deny) == head + Filter(a[1..] + b, deny);
      FilterAppend(a[1..], b, deny);
      assert head + (Filter(a[1..], deny) + Filter(b, deny)) == (head + Filter(a[1..], deny)) + Filter(b, deny);
    }
  }

  /** Number of lines equal to a deny-list entry. */
  function CountDenied(ls: seq<string>, deny: seq<string>): nat {
    if ls == [] then 0 else (if Keep(ls[0], deny) then 0 else 1) + CountDenied(ls[1..], deny)
  }

  /** Exactly the denied lines are removed: the output has |input| - #denied lines. */
  lemma {:induction false} FilterCount(ls: seq<string>, deny: seq<string>)
    ensures |Filter(ls, deny)| == |ls| - CountDenied(ls, deny)
  {
    if ls != [] {
      FilterCount(ls[1..], deny);
    }
  }

  /** `a` can be obtained from `b` by deleting elements. */
  predicate IsSubsequence<T(==)>(a: seq<T>, b: seq<T>)
    decreases |b|
  {
    a == [] || (b != [] && ((a[0] == b[0] && IsSubsequence(a[1..], b[1..])) || IsSubsequence(a, b[1..])))
  }

  /** The kept lines appear in the input in the same order. */
  lemma {:induction false} FilterSubsequence(ls: seq<string>, deny: seq<string>)
    ensures IsSubsequence(Filter(ls, deny), ls)
  {
    if ls != [] {
      FilterSubsequence(ls[1..], deny);
      if Keep(ls[0], deny) {
        var kept := Filter(ls, deny);
        assert kept == [ls[0]] + Filter(ls[1..], deny);
        assert kept[0] == ls[0] && kept[1..] == Filter(ls[1..], deny);
      } else {
        assert Filter(ls, deny) == Filter(ls[1..], deny);
      }
    }
  }

  /** Filtering changes nothing exactly when no line is denied. */
  lemma {:induction false} FilterIdentity(ls: seq<string>, deny: seq<string>)
    ensures Filter(ls, deny) == ls <==> forall l :: l in ls ==> Keep(l, deny)
  {
    if ls != [] {
      FilterIdentity(ls[1..], deny);
      assert forall l :: l in ls ==> l == ls[0] || l in ls[1..];
      if !Keep(ls[0], deny) {
        assert |Filter(ls, deny)| <= |ls[1..]| < |ls|;
      }
    }
  }

  /** Filtering an already-filtered sequence changes nothing. */
  lemma FilterIdempotent(ls: seq<string>, deny: seq<string>)
    ensures Filter(Filter(ls, deny), deny) == Filter(ls, deny)
  {
    FilterSound(ls, deny);
    FilterIdentity(Filter(ls, deny), deny);
  }

  // ---------------------------------------------------------------------------
  // Step 4: writing each line followed by "\n"
  // ---------------------------------------------------------------------------

  /** The lines, each followed by one "\n". */
  function Join(ls: seq<string>): (out: string)
    ensures out == [] <==> ls == []
    ensures out != [] ==> out[|out| - 1] == '\n'
  {
    if ls == [] then [] else ls[0] + "\n" + Join(ls[1..])
  }

  lemma {:induction false} JoinAppend(a: seq<string>, b: seq<string>)
    ensures Join(a + b) == Join(a) + Join(b)
    decreases |a|
  {
    if a == [] {
      assert a + b == b;
    } else {
      var head := a[0] + "\n";
      assert (a + b)[0] == a[0] && (a + b)[1..] == a[1..] + b;
      assert Join(a + b) == head + Join(a[1..] + b);
      JoinAppend(a[1..], b);
      assert head + (Join(a[1..]) + Join(b)) == (head + Join(a[1..])) + Join(b);
    }
  }

  /** Line `i` adds itself and a "\n" to the output when kept, and nothing otherwise. */
  lemma EmitStepAt(lines: seq<string>, i: nat, deny: seq<string>)
    requires i < |lines|
    ensures Join(Filter(lines[..i + 1], deny)) ==
      Join(Filter(lines[..i], deny)) + (if Keep(lines[i], deny) then lines[i] + "\n" else [])
  {
    var line := lines[i];
    assert lines[..i + 1] == lines[..i] + [line];
    FilterAppend(lines[..i], [line], deny);
    JoinAppend(Filter(lines[..i], deny), Filter([line], deny));
    assert Filter([line], deny) == if Keep(line, deny) then [line] else [];
    if Keep(line, deny) {
      assert Join([line]) == line + "\n" + Join([]);
    }
  }

  /** A line the writer can give back through `str::lines` unchanged. */
  predicate PlainLine(l: string) {
    '\n' !in l && (l == [] || l[|l| - 1] != '\r')
  }

  /** Splitting the written text gives back the lines written, when none holds '\n' or ends in '\r'. */
  lemma {:induction false} LinesOfJoin(ls: seq<string>)
    requires forall l :: l in ls ==> PlainLine(l)
    ensures Lines(Join(ls)) == ls
  {
    if ls != [] {
      var first, rest := ls[0], ls[1..];
      assert first in ls && PlainLine(first);
      assert StripCr(first) == first;
      assert forall l :: l in rest ==> l in ls;
      assert Join(ls) == first + "\n" + Join(rest);
      LinesSplit(first, Join(rest));
      LinesOfJoin(rest);
      assert ls == [first] + rest;
    }
  }

  /** The written form of text: its lines, each followed by "\n". */
  function Terminated(s: string): string {
    if HasUnterminatedLine(s) then s + "\n" else s
  }

  /** Putting a terminated line in front of a text keeps its written form in step. */
  lemma TerminatedCons(a: string, b: string)
    ensures Terminated(a + "\n" + b) == a + "\n" + Terminated(b)
  {
    var s := a + "\n" + b;
    if b == [] {
      assert s[|s| - 1] == '\n';
      assert a + "\n" + [] == s;
    } else {
      assert s[|s| - 1] == b[|b| - 1];
      if HasUnterminatedLine(b) {
        assert a + "\n" + (b + "\n") == s + "\n";
      }
    }
  }

  lemma JoinOfUnterminated(s: string)
    requires s != [] && '\n' !in s
    ensures Join(Lines(s)) == Terminated(s)
  {
    LinesUnterminated(s);
    assert s[|s| - 1] in s;
    assert Join([s]) == s + "\n" + Join([]);
  }

  /**
   Writing the lines of a text without '\r' gives the text back, with a '\n'
   added when its last line was unterminated.
   */
  lemma {:induction false} JoinOfLines(s: string)
    requires '\r' !in s
    ensures Join(Lines(s)) == Terminated(s)
    decreases |s|
  {
    if s != [] {
      var k := NewlineIndex(s);
      assert '\n' !in s[..k];
      if k == |s| {
        assert s == s[..k];
        JoinOfUnterminated(s);
      } else {
        var a, b := s[..k], s[k + 1..];
        assert s == a + "\n" + b;
        assert '\r' !in a && '\r' !in b by {
          assert forall c :: c in a || c in b ==> c in s;
        }
        assert StripCr(a) == a by {
          if a != [] {
            assert a[|a| - 1] in a;
          }
        }
        LinesSplit(a, b);
        assert Join(Lines(s)) == a + "\n" + Join(Lines(b));
        JoinOfLines(b);
        TerminatedCons(a, b);
      }
    }
  }

  // ---------------------------------------------------------------------------
  // The whole pass
  // ---------------------------------------------------------------------------

  /**
   What the build script writes to src/pac.rs for the svd2rust output `lib`, with
   `deny` the deny list (the build script passes DenyList).
   */
  function PostProcess(lib: string, deny: seq<string>): (out: string)
    ensures out == [] || out[|out| - 1] == '\n'
    ensures lib == [] ==> out == []
  {
    Join(Filter(Lines(Replace(lib)), deny))
  }

  /** When a text holds no "] ", none of its lines holds one. */
  lemma {:induction false} LinesNoBracketSpace(s: string)
    requires !HasBracketSpace(s)
    ensures forall l :: l in Lines(s) ==> !HasBracketSpace(l)
    decreases |s|
  {
    if s != [] {
      var k := NewlineIndex(s);
      if k < |s| {
        var p := StripCr(s[..k]);
        assert p == s[..|p|];
        forall i | 0 <= i < |p| - 1
          ensures !(p[i] == ']' && p[i + 1] == ' ')
        {
          assert p[i] == s[i] && p[i + 1] == s[i + 1];
        }
        var b := s[k + 1..];
        forall i | 0 <= i < |b| - 1
          ensures !(b[i] == ']' && b[i + 1] == ' ')
        {
          assert b[i] == s[k + 1 + i] && b[i + 1] == s[k + 1 + i + 1];
        }
        LinesNoBracketSpace(b);
      }
    }
  }

  /** Joining single lines free of "] " cannot form a "] " across a line break. */
  lemma {:induction false} JoinNoBracketSpace(ls: seq<string>)
    requires forall l :: l in ls ==> '\n' !in l && !HasBracketSpace(l)
    ensures !HasBracketSpace(Join(ls))
  {
    if ls != [] {
      var a, rest := ls[0], Join(ls[1..]);
      JoinNoBracketSpace(ls[1..]);
      assert a in ls;
      assert forall l :: l in ls[1..] ==> l in ls;
      var s := a + "\n" + rest;
      forall i | 0 <= i < |s| - 1
        ensures !(s[i] == ']' && s[i + 1] == ' ')
      {
        if i + 1 < |a| {
          assert s[i] == a[i] && s[i + 1] == a[i + 1];
        } else if i > |a| {
          assert s[i] == rest[i - |a| - 1] && s[i + 1] == rest[i - |a|];
        }
      }
    }
  }

  /**
   The written file is empty or ends in '\n', holds no "] ", and none of its lines
   equals a deny-list entry.
   */
  lemma PostProcessShape(lib: string, deny: seq<string>)
    ensures var out := PostProcess(lib, deny);
      (out == [] || out[|out| - 1] == '\n') && !HasBracketSpace(out)
    ensures forall l :: l in Filter(Lines(Replace(lib)), deny) ==> Keep(l, deny) && '\n' !in l
  {
    ReplaceRemovesBracketSpace(lib);
    LinesNoBracketSpace(Replace(lib));
    FilterSound(Lines(Replace(lib)), deny);
    JoinNoBracketSpace(Filter(Lines(Replace(lib)), deny));
  }

  /**
   Text made of lines that hold no "] " and are written the way the pass writes
   them comes out with exactly the denied lines removed and nothing else changed.
   */
  lemma PostProcessFiltersJoinedLines(ls: seq<string>, deny: seq<string>)
    requires forall l :: l in ls ==> PlainLine(l) && !HasBracketSpace(l)
    ensures PostProcess(Join(ls), deny) == Join(Filter(ls, deny))
  {
    JoinNoBracketSpace(ls);
    ReplaceFixedPoint(Join(ls));
    LinesOfJoin(ls);
  }

  /** Every deny-list entry survives the rewrite as a whole line, so the filter can still match it. */
  lemma DenyListSurvivesRewrite()
    ensures forall b :: b in DenyList ==> PlainLine(b) && !HasBracketSpace(b) && Replace(b) == b
  {
    DenyListShape();
    forall b | b in DenyList
      ensures !HasBracketSpace(b)
    {
      forall i | 0 <= i < |b| - 1
        ensures b[i] != ']'
      {
        assert b[i] == b[..|b| - 1][i];
      }
    }
    forall b | b in DenyList
      ensures Replace(b) == b
    {
      ReplaceFixedPoint(b);
    }
  }

  /**
   When `b`'s only ']' is its last character and a ' ' follows it, the rewrite
   ends `b` with a line break and leaves `b` itself alone.
   */
  lemma {:induction false} NoMatchBeforeEnd(b: string, t: string)
    requires |b| > 0 && b[|b| - 1] == ']' && ']' !in b[..|b| - 1]
    requires t != [] && t[0] == ' '
    ensures Replace(b + t) == b + "\n" + Replace(t[1..])
    decreases |b|
  {
    if |b| == 1 {
      assert (b + t)[2..] == t[1..];
    } else {
      assert b[0] == b[..|b| - 1][0];
      assert (b + t)[1..] == b[1..] + t;
      assert b[1..][..|b| - 2] == b[..|b| - 1][1..];
      NoMatchBeforeEnd(b[1..], t);
      assert [b[0]] + (b[1..] + "\n" + Replace(t[1..])) == b + "\n" + Replace(t[1..]);
    }
  }

  /**
   A denied attribute that svd2rust prints with "] " in front of the next item
   (`<attr> <rest>`) is split onto its own line by the rewrite and removed by the
   filter: the output is that of the rest alone.
   */
  lemma DenyEntryDropped(b: string, rest: string, deny: seq<string>)
    requires DenyEntryShape(b) && b in deny
    ensures PostProcess(b + " " + rest, deny) == PostProcess(rest, deny)
  {
    var t := " " + rest;
    assert b + " " + rest == b + t;
    assert t[1..] == rest;
    NoMatchBeforeEnd(b, t);
    var r := Replace(rest);
    LinesSplit(b, r);
    assert StripCr(b) == b;
    var ls := [b] + Lines(r);
    assert ls[0] == b && ls[1..] == Lines(r);
    assert Filter(ls, deny) == Filter(Lines(r), deny);
  }

  /** Each entry of the build script's deny list is dropped that way. */
  lemma DenyListEntryDropped(i: nat, rest: string)
    requires i < |DenyList|
    ensures PostProcess(DenyList[i] + " " + rest, DenyList) == PostProcess(rest, DenyList)
  {
    DenyListShape();
    assert DenyList[i] in DenyList;
    DenyEntryDropped(DenyList[i], rest, DenyList);
  }

  lemma NoCrInLines(s: string)
    requires '\r' !in s
    ensures forall l :: l in Lines(s) ==> '\r' !in l
    decreases |s|
  {
    if s != [] {
      var k := NewlineIndex(s);
      if k < |s| {
        assert forall c :: c in s[..k] ==> c in s;
        assert forall c :: c in s[k + 1..] ==> c in s;
        NoCrInLines(s[k + 1..]);
      }
    }
  }

  lemma NoCrAfterReplace(s: string)
    requires '\r' !in s
    ensures '\r' !in Replace(s)
  {
    var r := Replace(s);
    forall i | 0 <= i < |r|
      ensures r[i] != '\r'
    {
      ReplaceAt(s, i);
      assert s[i] in s;
    }
  }

  /** The kept lines of svd2rust output without '\r' are single lines free of "] " that end in no '\r'. */
  lemma KeptLinesArePlain(lib: string, deny: seq<string>)
    requires '\r' !in lib
    ensures forall l :: l in Filter(Lines(Replace(lib)), deny) ==> PlainLine(l) && !HasBracketSpace(l) && Keep(l, deny)
  {
    var kept := Filter(Lines(Replace(lib)), deny);
    PostProcessShape(lib, deny);
    NoCrAfterReplace(lib);
    NoCrInLines(Replace(lib));
    ReplaceRemovesBracketSpace(lib);
    LinesNoBracketSpace(Replace(lib));
    FilterSound(Lines(Replace(lib)), deny);
    forall l | l in kept
      ensures PlainLine(l)
    {
      if l != [] {
        assert l[|l| - 1] in l;
      }
    }
  }

  /** Read back line by line, the written file holds exactly the kept lines, in order. */
  lemma PostProcessLines(lib: string, deny: seq<string>)
    requires '\r' !in lib
    ensures Lines(PostProcess(lib, deny)) == Filter(Lines(Replace(lib)), deny)
  {
    KeptLinesArePlain(lib, deny);
    LinesOfJoin(Filter(Lines(Replace(lib)), deny));
  }

  /** On svd2rust output without '\r', running the pass over its own result changes nothing. */
  lemma PostProcessIdempotent(lib: string, deny: seq<string>)
    requires '\r' !in lib
    ensures PostProcess(PostProcess(lib, deny), deny) == PostProcess(lib, deny)
  {
    var kept := Filter(Lines(Replace(lib)), deny);
    KeptLinesArePlain(lib, deny);
    PostProcessFiltersJoinedLines(kept, deny);
    FilterIdempotent(Lines(Replace(lib)), deny);
  }

  /** Text written line by line with no denied line and no "] " passes through unchanged. */
  lemma PostProcessPassThrough(ls: seq<string>, deny: seq<string>)
    requires forall l :: l in ls ==> PlainLine(l) && !HasBracketSpace(l) && Keep(l, deny)
    ensures PostProcess(Join(ls), deny) == Join(ls)
  {
    PostProcessFiltersJoinedLines(ls, deny);
    FilterIdentity(ls, deny);
  }
}
