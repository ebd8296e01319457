/** The block `update install-hook` keeps in a shell startup file
    (cmd/update_hook.go): printed between two markers, recognised, replaced when
    stale and erased line by line. */
module ShellHook {
  import opened Results
  import opened Text

  /** The two marker lines and the comment lines between them. */
  datatype Markers = Markers(begin: string, end: string, notes: seq<string>)

  const BEGIN := "# >>> " + "pvecli update" + " notification" + " >>>"
  const END := "# <<< " + "pvecli update" + " notification" + " <<<"

  /** The comment lines, word by word. */
  const WHAT: seq<string> := [
    "#", "Prévient", "à", "l'ouverture", "d'un", "terminal", "qu'une", "release", "plus", "récente", "existe."]
  const HOW: seq<string> := [
    "#", "Ne", "fait", "AUCUN", "appel", "réseau", "en", "premier", "plan.", "Retrait", ":"]
  const UNDO: seq<string> := ["#  ", "pvecli", "update", "install-hook", "--uninstall"]

  const HOOK := Markers(BEGIN, END, [Join(WHAT, ' '), Join(HOW, ' '), Join(UNDO, ' ')])

  function SourceLine(path: string): string {
    "[ -f " + path + " ] && . " + path
  }

  function BlockLines(m: Markers, path: string): seq<string> {
    [m.begin] + m.notes + [SourceLine(path), m.end]
  }

  /** shellHookBlock: a blank line, the marked lines, and a final newline. */
  function Block(m: Markers, path: string): string {
    Join([""] + BlockLines(m, path) + [""], '\n')
  }

  // ------------------------------------------------------------ the eraser

  predicate HasBegin(m: Markers, line: string) {
    Contains(line, m.begin)
  }

  predicate HasEnd(m: Markers, line: string) {
    Contains(line, m.end)
  }

  /** Line i lies between a begin marker and the first end marker after it,
      markers included. */
  ghost predicate InBlock(m: Markers, lines: seq<string>, i: nat)
    requires i < |lines|
  {
    exists b | 0 <= b <= i :: HasBegin(m, lines[b]) && forall j | b <= j < i :: !HasEnd(m, lines[j])
  }

  /** The lines before position n that lie outside every block. */
  ghost function Outside(m: Markers, lines: seq<string>, n: nat): seq<string>
    requires n <= |lines|
  {
    if n == 0 then []
    else Outside(m, lines, n - 1) + (if InBlock(m, lines, n - 1) then [] else [lines[n - 1]])
  }

  /** Whether a block is open once the line has been read. */
  function Open(m: Markers, line: string, skip: bool): bool {
    (skip || HasBegin(m, line)) && !HasEnd(m, line)
  }

  function EraseLines(m: Markers, lines: seq<string>, skip: bool): seq<string> {
    if lines == [] then []
    else
      var rest := EraseLines(m, lines[1..], Open(m, lines[0], skip));
      if skip || HasBegin(m, lines[0]) then rest else [lines[0]] + rest
  }

  function Erase(m: Markers, content: string): string {
    Join(EraseLines(m, Split(content, '\n'), false), '\n')
  }

  lemma {:induction false} EraseOneMore(m: Markers, lines: seq<string>, line: string, skip: bool)
    ensures EraseLines(m, lines + [line], skip) ==
      EraseLines(m, lines, skip) + (if OpenAfter(m, lines, skip) || HasBegin(m, line) then [] else [line])
    ensures OpenAfter(m, lines + [line], skip) == Open(m, line, OpenAfter(m, lines, skip))
  {
    if lines == [] {
      assert [line][1..] == [];
    } else {
      assert (lines + [line])[1..] == lines[1..] + [line];
      EraseOneMore(m, lines[1..], line, Open(m, lines[0], skip));
    }
  }

  function OpenAfter(m: Markers, lines: seq<string>, skip: bool): bool {
    if lines == [] then skip else OpenAfter(m, lines[1..], Open(m, lines[0], skip))
  }

  /** Erasing keeps exactly the lines outside every block, in order. */
  lemma {:induction false} EraseKeepsTheOutside(m: Markers, lines: seq<string>, n: nat)
    requires n <= |lines|
    ensures EraseLines(m, lines[..n], false) == Outside(m, lines, n)
    ensures OpenAfter(m, lines[..n], false) <==> n > 0 && InBlock(m, lines, n - 1) && !HasEnd(m, lines[n - 1])
  {
    if n > 0 {
      EraseKeepsTheOutside(m, lines, n - 1);
      assert lines[..n] == lines[..n - 1] + [lines[n - 1]];
      EraseOneMore(m, lines[..n - 1], lines[n - 1], false);
      var open := n > 1 && InBlock(m, lines, n - 2) && !HasEnd(m, lines[n - 2]);
      assert InBlock(m, lines, n - 1) <==> open || HasBegin(m, lines[n - 1]) by {
        if open {
          var b :| 0 <= b <= n - 2 && HasBegin(m, lines[b]) && forall j | b <= j < n - 2 :: !HasEnd(m, lines[j]);
          assert forall j | b <= j < n - 1 :: !HasEnd(m, lines[j]);
        }
        if b :| 0 <= b <= n - 1 && HasBegin(m, lines[b]) && forall j | b <= j < n - 1 :: !HasEnd(m, lines[j]) {
          if b < n - 1 {
            assert InBlock(m, lines, n - 2);
          }
        }
      }
    }
  }

  /** removeShellHookBlock. */
  method RemoveBlock(m: Markers, content: string) returns (r: string)
    ensures r == Erase(m, content)
    ensures var lines := Split(content, '\n'); r == Join(Outside(m, lines, |lines|), '\n')
  {
    var lines := Split(content, '\n');
    var kept: seq<string> := [];
    var skip := false;
    var i := 0;
    while i < |lines|
      invariant 0 <= i <= |lines|
      invariant kept == EraseLines(m, lines[..i], false)
      invariant skip == OpenAfter(m, lines[..i], false)
    {
      assert lines[..i + 1] == lines[..i] + [lines[i]];
      EraseOneMore(m, lines[..i], lines[i], false);
      if HasBegin(m, lines[i]) {
        skip := true;
      }
      if !skip {
        kept := kept + [lines[i]];
      }
      if HasEnd(m, lines[i]) {
        skip := false;
      }
      i := i + 1;
    }
    EraseKeepsTheOutside(m, lines, |lines|);
    assert lines[..|lines|] == lines;
    return Join(kept, '\n');
  }

  // ------------------------------------------------- occurrences and lines

  lemma OccurrenceHolds(s: string, sub: string, c: char)
    requires Contains(s, sub) && c in sub
    ensures c in s
  {
    var k :| 0 <= k <= |s| && OccursAt(s, sub, k);
    var i :| 0 <= i < |sub| && sub[i] == c;
    assert s[k..k + |sub|][i] == s[k + i];
  }

  lemma EmptyHoldsNothing(sub: string)
    requires sub != ""
    ensures !Contains("", sub)
  {
  }

  lemma ContainsInPart(a: string, b: string, sub: string)
    ensures Contains(a, sub) ==> Contains(a + b, sub)
    ensures Contains(b, sub) ==> Contains(a + b, sub)
  {
    if k :| 0 <= k <= |a| && OccursAt(a, sub, k) {
      assert (a + b)[k..k + |sub|] == a[k..k + |sub|];
      assert OccursAt(a + b, sub, k);
    }
    if k :| 0 <= k <= |b| && OccursAt(b, sub, k) {
      assert (a + b)[|a| + k..|a| + k + |sub|] == b[k..k + |sub|];
      assert OccursAt(a + b, sub, |a| + k);
    }
  }

  /** A character foreign to `sub` stands outside every occurrence of it. */
  lemma StandsOutside(s: string, sub: string, k: nat, p: nat)
    requires OccursAt(s, sub, k) && p < |s| && s[p] !in sub
    ensures p < k || p >= k + |sub|
  {
    var t := s[k..k + |sub|];
    assert forall i | 0 <= i < |sub| :: t[i] == s[k + i];
    assert forall i | 0 <= i < |sub| :: sub[i] in sub;
  }

  /** Text without the separator cannot straddle one. */
  lemma ContainsAcross(a: string, b: string, sub: string, sep: char)
    requires sep !in sub
    ensures Contains(a + [sep] + b, sub) <==> Contains(a, sub) || Contains(b, sub)
  {
    var s := a + [sep] + b;
    ContainsInPart(a, [sep] + b, sub);
    ContainsInPart(a + [sep], b, sub);
    assert a + ([sep] + b) == s;
    if k :| 0 <= k <= |s| && OccursAt(s, sub, k) {
      StandsOutside(s, sub, k, |a|);
      if k + |sub| <= |a| {
        assert a[k..k + |sub|] == s[k..k + |sub|];
        assert OccursAt(a, sub, k);
      } else {
        assert b[k - |a| - 1..k - |a| - 1 + |sub|] == s[k..k + |sub|];
        assert OccursAt(b, sub, k - |a| - 1);
      }
    }
  }

  /** A marker is in the text exactly when it is in one of its lines. */
  lemma {:induction false} ContainsInLine(lines: seq<string>, sub: string, sep: char)
    requires sep !in sub && lines != []
    ensures Contains(Join(lines, sep), sub) <==> exists l | l in lines :: Contains(l, sub)
  {
    if |lines| > 1 {
      ContainsInLine(lines[1..], sub, sep);
      ContainsAcross(lines[0], Join(lines[1..], sep), sub, sep);
      assert lines == [lines[0]] + lines[1..];
    }
  }

  lemma MarkedLines(content: string, sub: string)
    requires '\n' !in sub
    ensures Contains(content, sub) <==> exists l | l in Split(content, '\n') :: Contains(l, sub)
  {
    JoinSplit(content, '\n');
    ContainsInLine(Split(content, '\n'), sub, '\n');
  }

  // ------------------------------------------------------ what markers are

  /** Markers that can be told apart and survive splitting into lines. */
  ghost predicate Sound(m: Markers) {
    && Marker(m.begin) && Marker(m.end)
    && !HasEnd(m, m.begin) && !HasBegin(m, m.end)
    && (forall note | note in m.notes :: '\n' !in note && !HasBegin(m, note) && !HasEnd(m, note))
  }

  ghost predicate Marker(s: string) {
    s != "" && s[0] == '#' && s[|s| - 1] != ' ' && '\n' !in s && ']' !in s
  }

  /** A path install can be given: one line, naming neither marker. */
  ghost predicate CleanPath(m: Markers, path: string) {
    '\n' !in path && !Contains(path, m.begin) && !Contains(path, m.end)
  }

  /** A character of the comment lines: it could belong neither to a marker's
      brackets nor to the test of the source line. */
  predicate PlainChar(c: char) {
    c != '\n' && c != '<' && c != '>' && c != ']'
  }

  ghost predicate Plain(line: string) {
    forall i | 0 <= i < |line| :: PlainChar(line[i])
  }

  lemma BeginIsMarker()
    ensures Marker(BEGIN) && '>' in BEGIN && '<' !in BEGIN
  {
  }

  lemma EndIsMarker()
    ensures Marker(END) && '<' in END && '>' !in END
  {
  }

  /** A line of plain words is plain. */
  lemma {:induction false} SentenceIsPlain(words: seq<string>)
    requires forall w | w in words :: Plain(w)
    ensures Plain(Join(words, ' '))
  {
    if |words| > 1 {
      SentenceIsPlain(words[1..]);
      PlainConcat(words[0], [' ']);
      PlainConcat(words[0] + [' '], Join(words[1..], ' '));
    }
  }

  lemma PlainConcat(a: string, b: string)
    requires Plain(a) && Plain(b)
    ensures Plain(a + b)
  {
    forall i | 0 <= i < |a + b| ensures PlainChar((a + b)[i]) {
      assert (a + b)[i] == if i < |a| then a[i] else b[i - |a|];
    }
  }

  lemma WhatIsPlain()
    ensures forall w | w in WHAT :: Plain(w)
  {
  }

  lemma HowIsPlain()
    ensures forall w | w in HOW :: Plain(w)
  {
  }

  lemma UndoIsPlain()
    ensures forall w | w in UNDO :: Plain(w)
  {
  }

  lemma NotesArePlain()
    ensures forall note | note in HOOK.notes :: Plain(note)
  {
    WhatIsPlain();
    HowIsPlain();
    UndoIsPlain();
    SentenceIsPlain(WHAT);
    SentenceIsPlain(HOW);
    SentenceIsPlain(UNDO);
  }

  lemma WithoutChar(line: string, marker: string, c: char)
    requires c in marker && c !in line
    ensures !Contains(line, marker)
  {
    if Contains(line, marker) {
      OccurrenceHolds(line, marker, c);
    }
  }

  /** Markers are sound as soon as only the first holds '>', only the second
      '<', and the comment lines hold neither. */
  lemma SoundByBrackets(m: Markers)
    requires Marker(m.begin) && '>' in m.begin && '<' !in m.begin
    requires Marker(m.end) && '<' in m.end && '>' !in m.end
    requires forall note | note in m.notes :: Plain(note)
    ensures Sound(m)
  {
    WithoutChar(m.begin, m.end, '<');
    WithoutChar(m.end, m.begin, '>');
    forall note | note in m.notes ensures !HasBegin(m, note) && !HasEnd(m, note) {
      WithoutChar(note, m.begin, '>');
      WithoutChar(note, m.end, '<');
    }
  }

  lemma HookIsSound()
    ensures Sound(HOOK)
  {
    BeginIsMarker();
    EndIsMarker();
    NotesArePlain();
    SoundByBrackets(HOOK);
  }

  /** A marker found in a text lies in one of two parts set apart by characters
      that no marker holds: none straddles, none starts with, a blank and a "]". */
  lemma MarkerBeforeGap(a: string, rest: string, marker: string)
    requires Marker(marker) && Contains(a + " ]" + rest, marker)
    ensures Contains(a, marker) || Contains(rest, marker)
  {
    var s := a + " ]" + rest;
    var k :| 0 <= k <= |s| && OccursAt(s, marker, k);
    StandsOutside(s, marker, k, |a| + 1);
    var last := s[k..k + |marker|][|marker| - 1];
    assert last == marker[|marker| - 1] == s[k + |marker| - 1];
    var first := s[k..k + |marker|][0];
    assert first == '#' == s[k];
    if k + |marker| <= |a| {
      assert a[k..k + |marker|] == s[k..k + |marker|];
      assert OccursAt(a, marker, k);
    } else {
      var o := k - |a| - 2;
      assert rest[o..o + |marker|] == s[k..k + |marker|];
      assert OccursAt(rest, marker, o);
    }
  }

  /** Nor does a prefix without "#" hold the start of a marker. */
  lemma MarkerAfterPrefix(prefix: string, rest: string, marker: string)
    requires Marker(marker) && '#' !in prefix && Contains(prefix + rest, marker)
    ensures Contains(rest, marker)
  {
    var s := prefix + rest;
    var k :| 0 <= k <= |s| && OccursAt(s, marker, k);
    var first := s[k..k + |marker|][0];
    assert first == '#' == s[k];
    var o := k - |prefix|;
    assert rest[o..o + |marker|] == s[k..k + |marker|];
    assert OccursAt(rest, marker, o);
  }

  /** The source line holds a marker only if the path does. */
  lemma SourceLineIsClean(path: string, marker: string)
    requires Marker(marker)
    ensures Contains(SourceLine(path), marker) ==> Contains(path, marker)
    ensures '\n' !in path ==> '\n' !in SourceLine(path)
  {
    if Contains(SourceLine(path), marker) {
      var tail := " && . " + path;
      assert SourceLine(path) == "[ -f " + (path + " ]" + tail);
      MarkerAfterPrefix("[ -f ", path + " ]" + tail, marker);
      MarkerBeforeGap(path, tail, marker);
      if Contains(tail, marker) {
        MarkerAfterPrefix(" && . ", path, marker);
      }
    }
  }

  // --------------------------------------------------- erasing what is there

  ghost predicate Free(m: Markers, lines: seq<string>) {
    forall l | l in lines :: !HasBegin(m, l)
  }

  lemma {:induction false} EraseConcat(m: Markers, a: seq<string>, b: seq<string>, skip: bool)
    ensures EraseLines(m, a + b, skip) == EraseLines(m, a, skip) + EraseLines(m, b, OpenAfter(m, a, skip))
    ensures OpenAfter(m, a + b, skip) == OpenAfter(m, b, OpenAfter(m, a, skip))
  {
    if a == [] {
      assert [] + b == b;
    } else {
      assert (a + b)[1..] == a[1..] + b;
      EraseConcat(m, a[1..], b, Open(m, a[0], skip));
    }
  }

  lemma {:induction false} EraseKeepsFree(m: Markers, lines: seq<string>)
    requires Free(m, lines)
    ensures EraseLines(m, lines, false) == lines && !OpenAfter(m, lines, false)
  {
    if lines != [] {
      assert lines == [lines[0]] + lines[1..];
      EraseKeepsFree(m, lines[1..]);
    }
  }

  lemma {:induction false} EraseLeavesFree(m: Markers, lines: seq<string>, skip: bool)
    ensures Free(m, EraseLines(m, lines, skip))
    ensures forall l | l in EraseLines(m, lines, skip) :: l in lines
  {
    if lines != [] {
      EraseLeavesFree(m, lines[1..], Open(m, lines[0], skip));
    }
  }

  lemma {:induction false} EraseSkipsInside(m: Markers, lines: seq<string>)
    requires forall l | l in lines :: !HasEnd(m, l)
    ensures EraseLines(m, lines, true) == [] && OpenAfter(m, lines, true)
  {
    if lines != [] {
      assert lines == [lines[0]] + lines[1..];
      EraseSkipsInside(m, lines[1..]);
    }
  }

  lemma SelfContained(s: string)
    ensures Contains(s, s)
  {
    assert OccursAt(s, s, 0);
  }

  /** The printed lines, begin marker to end marker, erase to nothing. */
  lemma EraseBlockLines(m: Markers, path: string)
    requires Sound(m) && CleanPath(m, path)
    ensures EraseLines(m, BlockLines(m, path), false) == [] && !OpenAfter(m, BlockLines(m, path), false)
    ensures forall l | l in BlockLines(m, path) :: '\n' !in l
  {
    SelfContained(m.begin);
    SelfContained(m.end);
    SourceLineIsClean(path, m.begin);
    SourceLineIsClean(path, m.end);
    var inner := m.notes + [SourceLine(path)];
    assert BlockLines(m, path) == [m.begin] + (inner + [m.end]);
    EraseSkipsInside(m, inner);
    EraseConcat(m, inner, [m.end], true);
    EraseConcat(m, [m.begin], inner + [m.end], false);
    assert [m.begin][1..] == [] && [m.end][1..] == [];
  }

  /** How a block sits in a file: on lines of its own. */
  lemma SplitAroundBlock(m: Markers, before: string, path: string, after: string)
    requires Sound(m) && CleanPath(m, path)
    ensures Split(before + Block(m, path) + after, '\n') == Split(before, '\n') + BlockLines(m, path) + Split(after, '\n')
  {
    var lines := BlockLines(m, path);
    EraseBlockLines(m, path);
    JoinConcat([""], lines, '\n');
    JoinConcat([""] + lines, [""], '\n');
    var text := Join(lines, '\n');
    assert Block(m, path) == ['\n'] + text + ['\n'];
    assert before + Block(m, path) + after == before + ['\n'] + (text + ['\n'] + after);
    SplitConcat(before, text + ['\n'] + after, '\n');
    SplitConcat(text, after, '\n');
    SplitJoin(lines, '\n');
  }

  lemma EraseBetween(m: Markers, a: seq<string>, path: string, b: seq<string>)
    requires Sound(m) && CleanPath(m, path) && Free(m, a) && Free(m, b)
    ensures EraseLines(m, a + BlockLines(m, path) + b, false) == a + b
  {
    var lines := BlockLines(m, path);
    EraseKeepsFree(m, a);
    EraseKeepsFree(m, b);
    EraseBlockLines(m, path);
    EraseConcat(m, a + lines, b, false);
    EraseConcat(m, a, lines, false);
    assert a + [] == a;
  }

  /** Erasing undoes printing, wherever the block stands among text without a
      begin marker: both neighbours survive, one newline between them. */
  lemma EraseUndoesPrint(m: Markers, before: string, path: string, after: string)
    requires Sound(m) && CleanPath(m, path)
    requires !Contains(before, m.begin) && !Contains(after, m.begin)
    ensures Erase(m, before + Block(m, path) + after) == before + "\n" + after
  {
    var a, b := Split(before, '\n'), Split(after, '\n');
    SplitAroundBlock(m, before, path, after);
    MarkedLines(before, m.begin);
    MarkedLines(after, m.begin);
    EraseBetween(m, a, path, b);
    JoinConcat(a, b, '\n');
    JoinSplit(before, '\n');
    JoinSplit(after, '\n');
  }

  /** Text without a begin marker is left alone. */
  lemma EraseOfFree(m: Markers, content: string)
    requires '\n' !in m.begin && !Contains(content, m.begin)
    ensures Erase(m, content) == content
  {
    MarkedLines(content, m.begin);
    EraseKeepsFree(m, Split(content, '\n'));
    JoinSplit(content, '\n');
  }

  /** Erasing any text at all leaves no begin marker, so erasing twice is erasing
      once. */
  lemma EraseIsIdempotent(m: Markers, content: string)
    requires Sound(m)
    ensures !Contains(Erase(m, content), m.begin)
    ensures Erase(m, Erase(m, content)) == Erase(m, content)
  {
    var kept := EraseLines(m, Split(content, '\n'), false);
    EraseLeavesFree(m, Split(content, '\n'), false);
    if kept == [] {
      EmptyHoldsNothing(m.begin);
    } else {
      ContainsInLine(kept, m.begin, '\n');
    }
    EraseOfFree(m, Erase(m, content));
  }

  /** A begin marker with no end marker after it takes the rest of the file with
      it. */
  lemma UnclosedBlockLosesTheRest(m: Markers, before: string, rest: string)
    requires Sound(m) && !Contains(before, m.begin) && !Contains(m.begin + rest, m.end)
    ensures Erase(m, before + "\n" + m.begin + rest) == before
  {
    var tail := m.begin + rest;
    assert before + "\n" + m.begin + rest == before + ['\n'] + tail;
    SplitConcat(before, tail, '\n');
    var a, b := Split(before, '\n'), Split(tail, '\n');
    MarkedLines(before, m.begin);
    MarkedLines(tail, m.end);
    FirstLineKeepsPrefix(m.begin, rest);
    EraseUnclosed(m, a, b);
    JoinSplit(before, '\n');
  }

  /** Every begin marker has an end marker on its line or after it. */
  ghost predicate EveryBlockEnds(m: Markers, lines: seq<string>) {
    forall b | 0 <= b < |lines| && HasBegin(m, lines[b]) :: exists e | b <= e < |lines| :: HasEnd(m, lines[e])
  }

  /** Removal drops only lines of blocks that end if and only if every begin
      marker has an end marker at or after it. */
  lemma OnlyClosedBlocksGo(m: Markers, lines: seq<string>)
    ensures EveryBlockEnds(m, lines) <==>
      forall i | 0 <= i < |lines| && InBlock(m, lines, i) :: exists e | i <= e < |lines| :: HasEnd(m, lines[e])
  {
    forall b | 0 <= b < |lines| && HasBegin(m, lines[b]) ensures InBlock(m, lines, b) {
    }
  }

  lemma EraseUnclosed(m: Markers, a: seq<string>, b: seq<string>)
    requires Free(m, a) && b != [] && HasBegin(m, b[0]) && forall l | l in b :: !HasEnd(m, l)
    ensures EraseLines(m, a + b, false) == a
  {
    EraseKeepsFree(m, a);
    EraseConcat(m, a, b, false);
    EraseSkipsInside(m, b[1..]);
    assert a + [] == a;
  }

  lemma FirstLineKeepsPrefix(p: string, rest: string)
    requires '\n' !in p
    ensures Contains(Split(p + rest, '\n')[0], p)
  {
    SplitStartsWith(p, rest);
    var line := Split(p + rest, '\n')[0];
    assert line[0..|p|] == p;
    assert OccursAt(line, p, 0);
  }

  lemma {:induction false} SplitStartsWith(p: string, rest: string)
    requires '\n' !in p
    ensures p <= Split(p + rest, '\n')[0]
  {
    if p != [] {
      assert (p + rest)[1..] == p[1..] + rest;
      SplitStartsWith(p[1..], rest);
    }
  }

  /** The lines of a block: the markers first and last, and before the last the one
      that tests the path and sources it. */
  lemma BlockSourcesThePath(m: Markers, path: string)
    requires Sound(m) && CleanPath(m, path)
    ensures Split(Block(m, path), '\n') ==
      ["", m.begin] + m.notes + ["[ -f " + path + " ] && . " + path, m.end, ""]
  {
    SplitAroundBlock(m, "", path, "");
    assert "" + Block(m, path) + "" == Block(m, path);
    assert [""] + BlockLines(m, path) + [""] == ["", m.begin] + m.notes + [SourceLine(path), m.end, ""];
  }

  // ------------------------------------------------------ install, uninstall

  /** A missing file counts as empty. */
  function ContentOf(rc: Option<string>): string {
    if rc.Some? then rc.value else ""
  }

  /** runInstallHook on the startup file. */
  function InstallText(m: Markers, rc: Option<string>, path: string): Option<string> {
    var previous := ContentOf(rc);
    if !Contains(previous, m.begin) then Some(previous + Block(m, path))
    else if Contains(previous, SourceLine(path)) then rc
    else Some(Erase(m, previous) + Block(m, path))
  }

  /** runUninstallHook on the startup file. */
  function UninstallText(m: Markers, rc: Option<string>): Option<string> {
    if rc.Some? && Contains(rc.value, m.begin) then Some(Erase(m, rc.value)) else rc
  }

  /** The two files the command writes: the startup file (`rcKnown` is false for
      a shell it does not recognise) and the snippet it sources. */
  class HookFiles {
    const rcKnown: bool
    var rc: Option<string>
    var snippet: Option<string>

    method Install(path: string, text: string)
      modifies this
      ensures rc == if rcKnown then InstallText(HOOK, old(rc), path) else old(rc)
      ensures snippet == if rcKnown then Some(text) else old(snippet)
    {
      if !rcKnown {
        return;
      }
      snippet := Some(text);
      var previous := ContentOf(rc);
      if Contains(previous, HOOK.begin) {
        if Contains(previous, SourceLine(path)) {
          return;
        }
        previous := RemoveBlock(HOOK, previous);
      }
      rc := Some(previous + Block(HOOK, path));
    }

    method Uninstall()
      modifies this
      ensures rc == if rcKnown then UninstallText(HOOK, old(rc)) else old(rc)
      ensures snippet == None
    {
      snippet := None;
      if !rcKnown || rc.None? {
        return;
      }
      if !Contains(rc.value, HOOK.begin) {
        return;
      }
      var erased := RemoveBlock(HOOK, rc.value);
      rc := Some(erased);
    }
  }

  // -------------------------------------------------------------- every run

  datatype Command = Install(path: string) | Uninstall

  function Step(m: Markers, rc: Option<string>, command: Command): Option<string> {
    match command
    case Install(path) => InstallText(m, rc, path)
    case Uninstall => UninstallText(m, rc)
  }

  function Run(m: Markers, rc: Option<string>, commands: seq<Command>): Option<string> {
    if commands == [] then rc
    else Step(m, Run(m, rc, commands[..|commands| - 1]), commands[|commands| - 1])
  }

  function Newlines(n: nat): string {
    seq(n, _ => '\n')
  }

  /** What is wired: the block of a path, or nothing. */
  function BlockOf(m: Markers, wired: Option<string>): string {
    if wired.Some? then Block(m, wired.value) else ""
  }

  lemma NewlinesHoldNothing(user: string, n: nat, sub: string)
    requires sub != "" && '\n' !in sub
    ensures Contains(user + Newlines(n), sub) <==> Contains(user, sub)
  {
    if n > 0 {
      NewlinesHoldNothing(user, n - 1, sub);
      assert user + Newlines(n) == user + Newlines(n - 1) + ['\n'] + "";
      ContainsAcross(user + Newlines(n - 1), "", sub, '\n');
      EmptyHoldsNothing(sub);
    } else {
      assert user + Newlines(0) == user;
    }
  }

  /** A line is in a file that ends in a block exactly when it is in the text
      before the block or in a line of the block. */
  lemma BlockHolds(m: Markers, before: string, path: string, sub: string)
    requires sub != "" && '\n' !in sub
    ensures Contains(before + Block(m, path), sub) <==> Contains(before, sub) || exists l | l in BlockLines(m, path) :: Contains(l, sub)
  {
    var lines := BlockLines(m, path);
    var text := Join(lines, '\n');
    JoinConcat([""], lines, '\n');
    JoinConcat([""] + lines, [""], '\n');
    assert before + Block(m, path) == before + ['\n'] + (text + ['\n'] + "");
    ContainsAcross(before, text + ['\n'] + "", sub, '\n');
    ContainsAcross(text, "", sub, '\n');
    EmptyHoldsNothing(sub);
    ContainsInLine(lines, sub, '\n');
  }

  lemma SourceLineIsALine(path: string)
    requires '\n' !in path
    ensures SourceLine(path) != "" && '\n' !in SourceLine(path)
  {
  }

  lemma BlockIsRecognised(m: Markers, before: string, path: string)
    requires Sound(m) && CleanPath(m, path)
    ensures Contains(before + Block(m, path), m.begin)
    ensures Contains(before + Block(m, path), SourceLine(path))
  {
    var lines := BlockLines(m, path);
    SelfContained(m.begin);
    SelfContained(SourceLine(path));
    SourceLineIsALine(path);
    assert lines[0] == m.begin && lines[1 + |m.notes|] == SourceLine(path);
    BlockHolds(m, before, path, m.begin);
    BlockHolds(m, before, path, SourceLine(path));
  }

  lemma OneMoreNewline(user: string, n: nat)
    ensures user + Newlines(n) + "\n" == user + Newlines(n + 1)
  {
  }

  /** Replacing a block leaves the text before it and one newline. */
  lemma EraseLastBlock(m: Markers, before: string, path: string)
    requires Sound(m) && CleanPath(m, path) && !Contains(before, m.begin)
    ensures Erase(m, before + Block(m, path)) == before + "\n"
  {
    EmptyHoldsNothing(m.begin);
    assert before + Block(m, path) + "" == before + Block(m, path);
    EraseUndoesPrint(m, before, path, "");
    assert before + "\n" + "" == before + "\n";
  }

  // ------------------------------------------------ which path ends up wired

  lemma SourceLineTellsThePath(p: string, q: string)
    requires SourceLine(p) == SourceLine(q)
    ensures p == q
  {
    assert |p| == |q|;
    assert p == SourceLine(p)[5..5 + |p|] && q == SourceLine(q)[5..5 + |q|];
  }

  /** A file ends in the block of one path only. */
  lemma BlockTellsThePath(m: Markers, a: string, p: string, b: string, q: string)
    requires Sound(m) && CleanPath(m, p) && CleanPath(m, q)
    requires a + Block(m, p) == b + Block(m, q)
    ensures p == q
  {
    assert a + Block(m, p) + "" == b + Block(m, q) + "";
    SplitAroundBlock(m, a, p, "");
    SplitAroundBlock(m, b, q, "");
    var s := Split(a, '\n') + BlockLines(m, p) + [""];
    var t := Split(b, '\n') + BlockLines(m, q) + [""];
    assert s == t;
    assert s[|s| - 3] == SourceLine(p) && t[|t| - 3] == SourceLine(q);
    SourceLineTellsThePath(p, q);
  }

  /** Exactly when installing over a block rewires it: unless the file holds the
      source line of the new path already, be it in a comment of the user's. The
      block is then taken for current and stays as it is. */
  lemma InstallRewires(m: Markers, before: string, q: string, p: string)
    requires Sound(m) && CleanPath(m, q) && CleanPath(m, p) && !Contains(before, m.begin)
    ensures (exists b :: InstallText(m, Some(before + Block(m, q)), p) == Some(b + Block(m, p))) <==>
      p == q || !Contains(before + Block(m, q), SourceLine(p))
    ensures InstallText(m, Some(before + Block(m, q)), p) ==
      if Contains(before + Block(m, q), SourceLine(p)) then Some(before + Block(m, q)) else Some(before + "\n" + Block(m, p))
  {
    BlockIsRecognised(m, before, q);
    EraseLastBlock(m, before, q);
    if b :| InstallText(m, Some(before + Block(m, q)), p) == Some(b + Block(m, p)) {
      if Contains(before + Block(m, q), SourceLine(p)) {
        BlockTellsThePath(m, before, q, b, p);
      }
    }
  }

  /** The block of q, after the user's text, is taken for one of p. */
  ghost predicate Shadowed(m: Markers, user: string, q: string, p: string) {
    Contains(user, SourceLine(p)) || exists l | l in BlockLines(m, q) :: Contains(l, SourceLine(p))
  }

  /** The path wired after some commands. */
  ghost function Wired(m: Markers, user: string, commands: seq<Command>): (w: Option<string>)
    ensures w.Some? ==> Install(w.value) in commands
  {
    if commands == [] then None
    else
      var before, last := Wired(m, user, commands[..|commands| - 1]), commands[|commands| - 1];
      match last
      case Uninstall => None
      case Install(p) => if before.Some? && Shadowed(m, user, before.value, p) then before else Some(p)
  }

  /** One command moves the wiring as Wired says, keeps the user's text, and adds
      at most one newline. */
  lemma StepWires(m: Markers, user: string, n: nat, rc: Option<string>, wired: Option<string>, command: Command) returns (k: nat)
    requires Sound(m) && !Contains(user, m.begin)
    requires ContentOf(rc) == user + Newlines(n) + BlockOf(m, wired)
    requires wired.Some? ==> CleanPath(m, wired.value)
    requires command.Install? ==> CleanPath(m, command.path)
    ensures n <= k <= n + 1
    ensures var next := match command
        case Uninstall => None
        case Install(p) => if wired.Some? && Shadowed(m, user, wired.value, p) then wired else Some(p);
      ContentOf(Step(m, rc, command)) == user + Newlines(k) + BlockOf(m, next)
  {
    var text := user + Newlines(n);
    k := n;
    NewlinesHoldNothing(user, n, m.begin);
    OneMoreNewline(user, n);
    if wired.Some? {
      var q := wired.value;
      BlockIsRecognised(m, text, q);
      EmptyHoldsNothing(m.begin);
      assert rc.Some?;
      EraseLastBlock(m, text, q);
      if command.Install? {
        SourceLineIsALine(command.path);
        NewlinesHoldNothing(user, n, SourceLine(command.path));
        BlockHolds(m, text, q, SourceLine(command.path));
        InstallRewires(m, text, q, command.path);
        if !Shadowed(m, user, q, command.path) {
          k := n + 1;
        }
      } else {
        k := n + 1;
        assert user + Newlines(k) + "" == user + Newlines(k);
      }
    } else {
      assert text + "" == text;
    }
  }

  /** After any run of installs and uninstalls on a file that held no begin
      marker, the file is the user's text untouched, then newlines (at most one
      for each command), then the block of the path Wired tells, if any. A missing
      file counts as empty. */
  lemma {:induction false} EveryRunKeepsTheUsersText(m: Markers, rc: Option<string>, commands: seq<Command>) returns (n: nat)
    requires Sound(m) && !Contains(ContentOf(rc), m.begin)
    requires forall c | c in commands && c.Install? :: CleanPath(m, c.path)
    ensures n <= |commands|
    ensures ContentOf(Run(m, rc, commands)) ==
      ContentOf(rc) + Newlines(n) + BlockOf(m, Wired(m, ContentOf(rc), commands))
    decreases |commands|
  {
    if commands == [] {
      n := 0;
      assert ContentOf(rc) + Newlines(0) + "" == ContentOf(rc);
    } else {
      var front, last := commands[..|commands| - 1], commands[|commands| - 1];
      assert last in commands;
      n := EveryRunKeepsTheUsersText(m, rc, front);
      n := StepWires(m, ContentOf(rc), n, Run(m, rc, front), Wired(m, ContentOf(rc), front), last);
    }
  }

  lemma UpToTheFirstBlank(p: string, x: string, q: string, y: string)
    requires ' ' !in p && ' ' !in q && p + [' '] + x == q + [' '] + y
    ensures p == q
  {
    SplitConcat(p, x, ' ');
    SplitConcat(q, y, ' ');
    SplitWithoutSeparator(p, ' ');
    SplitWithoutSeparator(q, ' ');
    assert ([p] + Split(x, ' '))[0] == ([q] + Split(y, ' '))[0];
  }

  /** Only the first blank of a source line follows a "[" and precedes a "-". */
  lemma TestOpensOnce(q: string, i: nat)
    requires ' ' !in q && 0 < i < |SourceLine(q)| - 1
    requires SourceLine(q)[i - 1] == '[' && SourceLine(q)[i] == ' ' && SourceLine(q)[i + 1] == '-'
    ensures i == 1
  {
    var s, l := SourceLine(q), 5 + |q|;
    assert s[l] == ' ' && s[l + 1] == ']' && s[l + 2] == ' ' && s[l + 3] == '&' && s[l + 4] == '&';
    assert s[l + 5] == ' ' && s[l + 6] == '.' && s[l + 7] == ' ';
    assert forall j | 5 <= j < l :: s[j] == q[j - 5] != ' ';
    assert forall j | l + 8 <= j < |s| :: s[j] == q[j - l - 8] != ' ';
    assert s[1] == ' ' && s[2] == '-' && s[3] == 'f' && s[4] == ' ';
  }

  lemma OccursAtTheStart(q: string, p: string, k: nat)
    requires ' ' !in q && OccursAt(SourceLine(q), SourceLine(p), k)
    ensures k == 0
  {
    var s, sub := SourceLine(q), SourceLine(p);
    var t := s[k..k + |sub|];
    assert t[0] == s[k] && t[1] == s[k + 1] && t[2] == s[k + 2];
    assert sub[0] == '[' && sub[1] == ' ' && sub[2] == '-';
    TestOpensOnce(q, k + 1);
  }

  lemma SourceLineFromPath(p: string)
    ensures |SourceLine(p)| >= 5 && SourceLine(p)[5..] == p + [' '] + ("] && . " + p)
  {
  }

  lemma PrefixTellsThePath(q: string, p: string, rest: string)
    requires ' ' !in q && ' ' !in p && SourceLine(q) == SourceLine(p) + rest
    ensures p == q
  {
    SourceLineFromPath(p);
    SourceLineFromPath(q);
    var x, y := "] && . " + p, "] && . " + q;
    assert SourceLine(q)[5..] == SourceLine(p)[5..] + rest;
    assert (p + [' '] + x) + rest == p + [' '] + (x + rest);
    UpToTheFirstBlank(p, x + rest, q, y);
  }

  /** Among paths without spaces no source line holds another. */
  lemma SourceLinesOfPlainPaths(q: string, p: string)
    requires ' ' !in q && ' ' !in p && Contains(SourceLine(q), SourceLine(p))
    ensures p == q
  {
    var s, sub := SourceLine(q), SourceLine(p);
    var k :| 0 <= k <= |s| && OccursAt(s, sub, k);
    OccursAtTheStart(q, p, k);
    PrefixTellsThePath(q, p, s[|sub|..]);
  }

  /** Sound markers whose comment lines hold no "]". */
  ghost predicate Bracketless(m: Markers) {
    Sound(m) && forall note | note in m.notes :: ']' !in note
  }

  lemma HookIsBracketless()
    ensures Bracketless(HOOK)
  {
    HookIsSound();
    NotesArePlain();
  }

  lemma WithoutBracket(line: string, p: string)
    requires ']' !in line
    ensures !Contains(line, SourceLine(p))
  {
    assert SourceLine(p)[6 + |p|] == ']';
    WithoutChar(line, SourceLine(p), ']');
  }

  /** No line of such a block holds the source line of another path. */
  lemma BlockShadowsItsPath(m: Markers, q: string, p: string)
    requires Bracketless(m) && ' ' !in q && ' ' !in p
    ensures (exists l | l in BlockLines(m, q) :: Contains(l, SourceLine(p))) ==> p == q
  {
    if l :| l in BlockLines(m, q) && Contains(l, SourceLine(p)) {
      if l == SourceLine(q) {
        SourceLinesOfPlainPaths(q, p);
      } else {
        WithoutBracket(l, p);
      }
    }
  }

  /** With paths without spaces, the last install of a run takes effect exactly
      when nothing else was wired before it or the user's own text does not hold
      its source line. */
  lemma LastInstallIsWired(m: Markers, user: string, front: seq<Command>, p: string)
    requires Bracketless(m) && ' ' !in p && forall c | c in front && c.Install? :: ' ' !in c.path
    ensures Wired(m, user, front + [Install(p)]) == Some(p) <==>
      Wired(m, user, front) in {None, Some(p)} || !Contains(user, SourceLine(p))
  {
    var before := Wired(m, user, front);
    assert (front + [Install(p)])[..|front|] == front;
    if before.Some? {
      BlockShadowsItsPath(m, before.value, p);
    }
  }

  /** "# [ -f /new ] && . /new" */
  const COMMENTED := "# " + SourceLine("/new") + "\n"

  /** A user who keeps the line of a path in a comment: the block of another path
      stays when that path is installed, against cmd/update_hook.go:282-293. */
  lemma CommentKeepsAStaleBlock()
    ensures !Contains(COMMENTED, HOOK.begin)
    ensures Run(HOOK, Some(COMMENTED), [Install("/old"), Install("/new")]) == Some(COMMENTED + Block(HOOK, "/old"))
  {
    HookIsSound();
    CommentIsClean();
    OldIsClean();
    BlockIsRecognised(HOOK, COMMENTED, "/old");
    ContainsInPart(COMMENTED, Block(HOOK, "/old"), SourceLine("/new"));
    TwoInstalls(HOOK, COMMENTED, "/old", "/new");
  }

  lemma TwoInstalls(m: Markers, user: string, p: string, q: string)
    requires !Contains(user, m.begin)
    ensures Run(m, Some(user), [Install(p), Install(q)]) == InstallText(m, Some(user + Block(m, p)), q)
  {
    var commands := [Install(p), Install(q)];
    assert commands[..1] == [Install(p)] && commands[..1][..0] == [];
    assert Run(m, Some(user), commands[..1]) == Step(m, Some(user), Install(p));
  }

  lemma OldIsClean()
    ensures CleanPath(HOOK, "/old")
  {
    BeginIsMarker();
    EndIsMarker();
    WithoutChar("/old", HOOK.begin, '>');
    WithoutChar("/old", HOOK.end, '<');
  }

  lemma CommentIsClean()
    ensures !Contains(COMMENTED, HOOK.begin) && Contains(COMMENTED, SourceLine("/new"))
  {
    BeginIsMarker();
    var line := SourceLine("/new");
    assert '>' !in "[ -f " && '>' !in " ] && . " && '>' !in "/new" && '>' !in "# " && '>' !in "\n";
    WithoutChar(COMMENTED, HOOK.begin, '>');
    SelfContained(line);
    ContainsInPart("# ", line, line);
    ContainsInPart("# " + line, "\n", line);
  }

  /** After an install the source line of the path occurs in the file, whatever it
      held; InstallRewires tells when it is the block's. */
  lemma InstallSources(m: Markers, rc: Option<string>, path: string)
    requires Sound(m) && CleanPath(m, path)
    ensures InstallText(m, rc, path).Some? && Contains(InstallText(m, rc, path).value, SourceLine(path))
  {
    var previous := ContentOf(rc);
    BlockIsRecognised(m, previous, path);
    BlockIsRecognised(m, Erase(m, previous), path);
    EmptyHoldsNothing(m.begin);
  }
}
