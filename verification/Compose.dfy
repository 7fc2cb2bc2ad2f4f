/** Scrubbing a whole compose file: lines apart, each scrubbed, lines together again. */
module Compose {
  import opened Types
  import opened Strings
  import opened Redaction
  import opened Scrubber

  // ----- Lines -----

  function StripCr(line: string): string {
    if line != "" && line[|line| - 1] == '\r' then line[..|line| - 1] else line
  }

  /** Lines of a text: each ends at a newline, which goes with one carriage return before it;
      text after the last newline is a line of its own. */
  function Lines(content: string): seq<string> {
    if content == "" then []
    else
      var at := FindChar(content, '\n', 0);
      if at.None? then [content] else [StripCr(content[..at.value])] + Lines(content[at.value + 1..])
  }

  function Joined(lines: seq<string>): string {
    if lines == [] then "" else Joined(lines[..|lines| - 1]) + lines[|lines| - 1] + "\n"
  }

  predicate EndsInNewline(s: string) {
    s != "" && s[|s| - 1] == '\n'
  }

  function ScrubAll(lines: seq<string>): (r: seq<string>)
    ensures |r| == |lines|
  {
    seq(|lines|, i requires 0 <= i < |lines| => ScrubLine(lines[i]))
  }

  /** Drop the newline the loop added when the input did not end in one. */
  function Finish(content: string, result: string): string {
    if !EndsInNewline(content) && EndsInNewline(result) then result[..|result| - 1] else result
  }

  function Scrub(content: string): string {
    Finish(content, Joined(ScrubAll(Lines(content))))
  }

  method ScrubComposeSecrets(content: string) returns (result: string)
    ensures result == Scrub(content)
  {
    result := "";
    var lines := Lines(content);
    for k := 0 to |lines|
      invariant result == Joined(ScrubAll(lines[..k]))
    {
      result := result + ScrubLine(lines[k]) + "\n";
      assert ScrubAll(lines[..k + 1])[..k] == ScrubAll(lines[..k]);
    }
    assert lines[..|lines|] == lines;
    if !EndsInNewline(content) && EndsInNewline(result) {
      result := result[..|result| - 1];
    }
  }

  // ----- Taking apart and putting together -----

  /** The text between newlines, carriage returns and all. */
  function Pieces(content: string): seq<string> {
    if content == "" then []
    else
      var at := FindChar(content, '\n', 0);
      if at.None? then [content] else [content[..at.value]] + Pieces(content[at.value + 1..])
  }

  predicate IsLine(line: string) {
    '\n' !in line
  }

  predicate AreLines(lines: seq<string>) {
    forall i :: 0 <= i < |lines| ==> IsLine(lines[i])
  }

  /** A newline follows line `i` of the text; only the last line can go without. */
  predicate IsEnded(content: string, i: int) {
    i < |Pieces(content)| - 1 || EndsInNewline(content)
  }

  lemma {:induction false} JoinedCons(first: string, rest: seq<string>)
    ensures Joined([first] + rest) == first + "\n" + Joined(rest)
  {
    var all := [first] + rest;
    if rest == [] {
      assert all[..0] == [];
    } else {
      JoinedCons(first, rest[..|rest| - 1]);
      assert all[..|all| - 1] == [first] + rest[..|rest| - 1];
    }
  }

  lemma PiecesCons(first: string, rest: string)
    requires IsLine(first)
    ensures Pieces(first + "\n" + rest) == [first] + Pieces(rest)
  {
    var content := first + "\n" + rest;
    assert content[|first|] == '\n';
    assert forall i :: 0 <= i < |first| ==> content[i] == first[i];
    FindCharAt(content, '\n', 0, |first|);
    assert content[..|first|] == first && content[|first| + 1..] == rest;
  }

  /** Joining lines and taking them apart gives the same lines. */
  lemma {:induction false} PiecesOfJoined(lines: seq<string>)
    requires AreLines(lines)
    ensures Pieces(Joined(lines)) == lines
  {
    if lines != [] {
      var first, rest := lines[0], lines[1..];
      assert lines == [first] + rest;
      JoinedCons(first, rest);
      PiecesOfJoined(rest);
      PiecesCons(first, Joined(rest));
    }
  }

  lemma LastPieceAlone(line: string)
    requires IsLine(line) && line != ""
    ensures Pieces(line) == [line]
  {
    var at := FindChar(line, '\n', 0);
    assert at.None?;
  }

  /** The same for a text whose last line has no newline. */
  lemma {:induction false} PiecesOfUnfinished(lines: seq<string>)
    requires AreLines(lines) && lines != [] && lines[|lines| - 1] != ""
    ensures Joined(lines) != "" && Pieces(Joined(lines)[..|Joined(lines)| - 1]) == lines
    ensures !EndsInNewline(Joined(lines)[..|Joined(lines)| - 1])
  {
    var first, rest := lines[0], lines[1..];
    assert lines == [first] + rest;
    JoinedCons(first, rest);
    if rest == [] {
      assert Joined(lines)[..|Joined(lines)| - 1] == first;
      LastPieceAlone(first);
      assert first[|first| - 1] != '\n';
    } else {
      PiecesOfUnfinished(rest);
      var tail := Joined(rest)[..|Joined(rest)| - 1];
      assert Joined(lines)[..|Joined(lines)| - 1] == first + "\n" + tail;
      PiecesCons(first, tail);
      assert tail != "" by { PiecesAreNonEmpty(tail, rest); }
      assert (first + "\n" + tail)[|first| + |tail|] == tail[|tail| - 1];
    }
  }

  lemma PiecesAreNonEmpty(s: string, lines: seq<string>)
    requires Pieces(s) == lines && lines != []
    ensures s != ""
  {
  }

  /** What taking a text apart tells about it. */
  ghost predicate ReadsBack(content: string, lines: seq<string>) {
    && AreLines(lines)
    && (content != "" <==> lines != [])
    && (if content == "" || EndsInNewline(content) then Joined(lines) == content
        else Joined(lines) == content + "\n" && lines[|lines| - 1] != "")
  }

  /** Taking a text apart loses nothing: the pieces rebuild it, and an unfinished last one is
      not empty. */
  lemma {:induction false} PiecesReadBack(content: string)
    ensures ReadsBack(content, Pieces(content))
    decreases |content|
  {
    hide ReadsBack, Joined, EndsInNewline;
    if content == "" {
      NothingReadsBack();
    } else {
      var at := FindChar(content, '\n', 0);
      if at.None? {
        LastPieceReadsBack(content);
      } else {
        SplitFirst(content, at.value);
        PiecesReadBack(content[at.value + 1..]);
        FirstPieceReadsBack(content[..at.value], content[at.value + 1..], Pieces(content[at.value + 1..]));
      }
    }
  }

  lemma NothingReadsBack()
    ensures ReadsBack("", [])
  {
  }

  lemma LastPieceReadsBack(content: string)
    requires content != "" && Free(content, '\n', 0, |content|)
    ensures ReadsBack(content, [content])
  {
    assert '\n' !in content;
    JoinedCons(content, []);
  }

  lemma FirstPieceReadsBack(first: string, rest: string, lines: seq<string>)
    requires IsLine(first) && ReadsBack(rest, lines)
    ensures ReadsBack(first + "\n" + rest, [first] + lines)
  {
    JoinedCons(first, lines);
    var content, all := first + "\n" + rest, [first] + lines;
    assert AreLines(all);
    if rest == "" {
      assert content[|content| - 1] == '\n';
    } else {
      assert content[|content| - 1] == rest[|rest| - 1];
      assert all[|all| - 1] == lines[|lines| - 1];
      assert content + "\n" == first + "\n" + (rest + "\n");
    }
  }

  lemma SplitFirst(content: string, at: nat)
    requires at < |content| && content[at] == '\n' && Free(content, '\n', 0, at)
    ensures content == content[..at] + "\n" + content[at + 1..] && IsLine(content[..at])
  {
    assert forall i :: 0 <= i < at ==> content[..at][i] == content[i];
  }

  /** Texts with the same pieces that both end in a newline, or both do not, are one text. */
  lemma SameText(a: string, b: string)
    requires Pieces(a) == Pieces(b) && (EndsInNewline(a) <==> EndsInNewline(b))
    ensures a == b
  {
    hide Pieces, Joined, AreLines;
    PiecesReadBack(a);
    PiecesReadBack(b);
    if a != "" && !EndsInNewline(a) {
      assert a == (a + "\n")[..|a|] && b == (b + "\n")[..|b|];
    }
  }

  /** A text's lines are its pieces, less one carriage return before each newline. */
  lemma LinesArePieces(content: string)
    ensures |Lines(content)| == |Pieces(content)|
    ensures forall i :: 0 <= i < |Lines(content)| ==>
              Lines(content)[i] == if IsEnded(content, i) then StripCr(Pieces(content)[i]) else Pieces(content)[i]
  {
    hide StripCr, IsEnded, Lines, Pieces;
    AsManyLines(content);
    forall i | 0 <= i < |Lines(content)|
      ensures Lines(content)[i] == if IsEnded(content, i) then StripCr(Pieces(content)[i]) else Pieces(content)[i]
    {
      LineIsPiece(content, i);
    }
  }

  lemma {:induction false} AsManyLines(content: string)
    ensures |Lines(content)| == |Pieces(content)|
    decreases |content|
  {
    hide StripCr;
    if content != "" {
      var at := FindChar(content, '\n', 0);
      if at.Some? {
        AsManyLines(content[at.value + 1..]);
      }
    }
  }

  lemma {:induction false} LineIsPiece(content: string, i: nat)
    requires i < |Pieces(content)| && i < |Lines(content)|
    ensures Lines(content)[i] == if IsEnded(content, i) then StripCr(Pieces(content)[i]) else Pieces(content)[i]
    decreases |content|
  {
    hide StripCr, EndsInNewline, IsEnded;
    var at := FindChar(content, '\n', 0);
    if at.None? {
      LastIsUnended(content);
    } else {
      var rest := content[at.value + 1..];
      EndedAfterFirst(content, at.value, Pieces(rest));
      if i > 0 {
        AsManyLines(rest);
        LineIsPiece(rest, i - 1);
      }
    }
  }

  lemma LastIsUnended(content: string)
    requires content != "" && Free(content, '\n', 0, |content|) && Pieces(content) == [content]
    ensures !IsEnded(content, 0)
  {
  }

  lemma EndedAfterFirst(content: string, at: nat, rest: seq<string>)
    requires at < |content| && content[at] == '\n'
    requires Pieces(content) == [content[..at]] + rest && Pieces(content[at + 1..]) == rest
    ensures IsEnded(content, 0)
    ensures forall i :: 0 < i <= |rest| ==> IsEnded(content, i) == IsEnded(content[at + 1..], i - 1)
  {
    var tail := content[at + 1..];
    if tail == "" {
      assert content[|content| - 1] == '\n';
    } else {
      assert content[|content| - 1] == tail[|tail| - 1];
      assert rest != [];
    }
    hide Pieces;
    assert |Pieces(content)| == |rest| + 1;
  }

  lemma LinesAreLines(content: string)
    ensures AreLines(Lines(content))
    ensures content != "" && !EndsInNewline(content) ==>
              Lines(content) != [] && Lines(content)[|Lines(content)| - 1] != ""
    ensures content != "" <==> Lines(content) != []
  {
    hide Joined, Lines, Pieces;
    LinesArePieces(content);
    PiecesReadBack(content);
    forall i | 0 <= i < |Lines(content)|
      ensures IsLine(Lines(content)[i])
    {
      assert IsLine(Pieces(content)[i]);
    }
  }

  // ----- A scrubbed line is a line -----

  lemma ScrubLineLacks(line: string, c: char)
    requires c !in line && c !in USER_MASK && c !in MASK
    ensures c !in ScrubLine(line)
    ensures ScrubLine(line) == "" <==> line == ""
  {
    hide FindAssignment, Replacement, NamesSecret, HasUrlCredentials, Text;
    if FindAssignment(Trim(line)).Some? {
      var p := SeenIsAssignment(line);
      ScrubsAssignments(p);
      var r := Replacement(Trimmed(p), p.value);
      if r.Some? {
        PartsLack(p, c);
        ReplacementLacks(Trimmed(p), p.value, c);
        TextLacks(p.(value := r.value, tail := ""), c);
      }
      TextIsNonEmpty(p);
      TextIsNonEmpty(p.(value := if r.Some? then r.value else "", tail := ""));
    }
  }

  lemma TextIsNonEmpty(p: Parts)
    ensures Text(p) != ""
  {
    assert |Text(p)| >= 1;
  }

  lemma PartsLack(p: Parts, c: char)
    requires c !in Text(p)
    ensures c !in p.indent && c !in p.dash && c !in p.key && c != p.sep && c !in p.gap && c !in p.value
  {
    var t := Text(p);
    assert t == p.indent + p.dash + p.key + [p.sep] + p.gap + p.value + p.tail;
  }

  lemma TextLacks(p: Parts, c: char)
    requires c !in p.indent && c !in p.dash && c !in p.key && c != p.sep && c !in p.gap && c !in p.value && c !in p.tail
    ensures c !in Text(p)
  {
    assert Text(p) == p.indent + p.dash + p.key + [p.sep] + p.gap + p.value + p.tail;
  }

  lemma ReplacementLacks(trimmed: string, value: string, c: char)
    requires c !in value && c !in USER_MASK && c !in MASK
    ensures Replacement(trimmed, value).Some? ==> c !in Replacement(trimmed, value).value
  {
  }

  lemma ScrubAllAreLines(lines: seq<string>)
    requires AreLines(lines)
    ensures AreLines(ScrubAll(lines))
    ensures forall i :: 0 <= i < |lines| ==> (ScrubAll(lines)[i] == "" <==> lines[i] == "")
  {
    hide ScrubLine;
    forall i | 0 <= i < |lines|
      ensures IsLine(ScrubAll(lines)[i]) && (ScrubAll(lines)[i] == "" <==> lines[i] == "")
    {
      ScrubLineLacks(lines[i], '\n');
    }
  }

  // ----- Whole files -----

  lemma {:induction false} JoinedEnds(lines: seq<string>)
    requires lines != []
    ensures EndsInNewline(Joined(lines))
  {
  }

  /** Scrubbing works line by line and keeps the file's shape: what stands between the newlines
      of the scrubbed file are the file's lines, each scrubbed, and it ends in a newline exactly
      when the file did. */
  lemma ScrubKeepsLines(content: string)
    ensures Pieces(Scrub(content)) == ScrubAll(Lines(content))
    ensures EndsInNewline(Scrub(content)) <==> EndsInNewline(content)
  {
    hide ScrubLine, Lines;
    LinesAreLines(content);
    ScrubAllAreLines(Lines(content));
    var outs := ScrubAll(Lines(content));
    PiecesOfJoined(outs);
    if content != "" {
      JoinedEnds(outs);
      if !EndsInNewline(content) {
        PiecesOfUnfinished(outs);
      }
    }
  }

  /** So the second pass reads the scrubbed lines, less a carriage return before each newline. */
  lemma SecondPassReads(content: string)
    ensures |Lines(Scrub(content))| == |Lines(content)|
    ensures forall i :: 0 <= i < |Lines(content)| ==>
              Lines(Scrub(content))[i] ==
              if IsEnded(content, i) then StripCr(ScrubLine(Lines(content)[i])) else ScrubLine(Lines(content)[i])
  {
    hide ScrubLine, Scrub, Lines, StripCr, EndsInNewline;
    ScrubKeepsLines(content);
    LinesArePieces(Scrub(content));
    LinesArePieces(content);
  }

  predicate EndsInCr(line: string) {
    line != "" && line[|line| - 1] == '\r'
  }

  /** Scrubbing a file twice is scrubbing it once if and only if no line before a newline still
      ends in a carriage return after one is stripped, unless its value is replaced. */
  lemma ScrubTwiceIsExact(content: string)
    ensures Scrub(Scrub(content)) == Scrub(content) <==>
            forall i :: 0 <= i < |Lines(content)| && IsEnded(content, i) && EndsInCr(Lines(content)[i]) ==>
              IsReplaced(Lines(content)[i])
  {
    hide ScrubLine, Scrub, Lines, StripCr, EndsInNewline, EndsInCr, IsReplaced, IsEnded;
    var lines, once := Lines(content), Scrub(content);
    SecondPassReads(content);
    ScrubKeepsLines(content);
    ScrubKeepsLines(once);
    forall i | 0 <= i < |lines|
      ensures ScrubAll(Lines(once))[i] == ScrubAll(lines)[i] <==>
              (IsEnded(content, i) && EndsInCr(lines[i]) ==> IsReplaced(lines[i]))
    {
      if IsEnded(content, i) {
        StrippedLineTwice(lines[i]);
      } else {
        ScrubLineTwice(lines[i]);
      }
    }
    if Pieces(Scrub(once)) == Pieces(once) {
      SameText(Scrub(once), once);
    } else {
      assert exists i :: 0 <= i < |lines| && ScrubAll(Lines(once))[i] != ScrubAll(lines)[i];
    }
  }

  /** In particular a file without two carriage returns before a newline settles at the first
      pass, whatever its line ends are. */
  lemma OrdinaryFilesSettle(content: string)
    requires !Contains(content, "\r\r\n")
    ensures Scrub(Scrub(content)) == Scrub(content)
  {
    hide Scrub, Lines, Pieces, IsReplaced, IsEnded, OccursAt, StripCr, EndsInCr;
    ScrubTwiceIsExact(content);
    LinesArePieces(content);
    forall i | 0 <= i < |Lines(content)| && IsEnded(content, i)
      ensures !EndsInCr(Lines(content)[i])
    {
      EndedPieceHasOneCr(content, i);
    }
  }

  lemma EndedPieceHasOneCr(content: string, i: nat)
    requires i < |Pieces(content)| && IsEnded(content, i) && !Contains(content, "\r\r\n")
    ensures !EndsInCr(StripCr(Pieces(content)[i]))
  {
    hide Pieces, IsEnded, EndsInCr, StripCr;
    var j := EndedPieceStands(content, i);
    if EndsInCr(StripCr(Pieces(content)[i])) {
      TwoCrsStand(content, Pieces(content)[i], j);
    }
  }

  lemma TwoCrsStand(content: string, piece: string, j: nat)
    requires OccursAt(content, piece + "\n", j) && EndsInCr(StripCr(piece))
    ensures Contains(content, "\r\r\n")
  {
    var n := |piece|;
    assert (piece + "\n")[n - 2..] == "\r\r\n";
    assert content[j + n - 2..j + n + 1] == content[j..j + n + 1][n - 2..];
    assert OccursAt(content, "\r\r\n", j + n - 2);
  }

  lemma {:induction false} EndedPieceStands(content: string, i: nat) returns (j: nat)
    requires i < |Pieces(content)| && IsEnded(content, i)
    ensures OccursAt(content, Pieces(content)[i] + "\n", j)
    decreases |content|
  {
    hide EndsInNewline, IsEnded, OccursAt;
    var at := FindChar(content, '\n', 0);
    j := 0;
    if at.None? {
      LastIsUnended(content);
    } else {
      var rest := content[at.value + 1..];
      EndedAfterFirst(content, at.value, Pieces(rest));
      if i == 0 {
        FirstStands(content, at.value);
      } else {
        var k := EndedPieceStands(rest, i - 1);
        j := at.value + 1 + k;
        StandsFurther(content, at.value + 1, Pieces(rest)[i - 1] + "\n", k);
      }
    }
  }

  lemma FirstStands(content: string, at: nat)
    requires at < |content| && content[at] == '\n'
    ensures OccursAt(content, content[..at] + "\n", 0)
  {
    assert content[..at] + "\n" == content[..at + 1];
  }

  lemma StandsFurther(content: string, from: nat, t: string, k: nat)
    requires from <= |content| && OccursAt(content[from..], t, k)
    ensures OccursAt(content, t, from + k)
  {
    assert content[from + k..from + k + |t|] == content[from..][k..k + |t|];
  }

  /** What happens to one line that loses a carriage return between two passes. */
  lemma StrippedLineTwice(line: string)
    ensures ScrubLine(StripCr(ScrubLine(line))) == ScrubLine(line) <==> (EndsInCr(line) ==> IsReplaced(line))
  {
    hide ScrubLine, Trim, IsReplaced;
    if IsReplaced(line) {
      ReplacedEndsInText(line);
      ScrubLineTwice(line);
    } else {
      KeptLine(line);
      if EndsInCr(line) {
        var rest := line[..|line| - 1];
        assert line == rest + "\r";
        CrDoesNotCount(rest);
        KeptLine(rest);
      }
    }
  }

  /** With two carriage returns before a newline, one goes at each pass. */
  lemma CarriageReturnsShrink()
    ensures Scrub(Scrub("x\r\r\n")) != Scrub("x\r\r\n")
  {
    hide Scrub;
    OneLine("x\r");
    OneLine("x");
    assert "x\r" + "\r\n" == "x\r\r\n" && "x" + "\r\n" == "x\r" + "\n";
    assert |"x" + "\n"| != |"x\r" + "\n"|;
  }

  lemma OneLine(line: string)
    requires line == "x" || line == "x\r"
    ensures Scrub(line + "\r\n") == line + "\n"
  {
    var content := line + "\r\n";
    FindCharAt(content, '\n', 0, |line| + 1);
    assert content[..|line| + 1] == line + "\r" && StripCr(line + "\r") == line;
    assert Lines(content[|line| + 2..]) == [];
    assert Lines(content) == [line];
    LeadingSpaceIs(line, 0);
    assert line[0..] == line;
    TrimEndIs(line, 1);
    assert line[..1] == "x" && Trim(line) == "x";
    assert StartsWith("x", "- ") == false;
    assert "x"[0..] == "x" && KeyRun("x") == 1 by { assert "x"[1..] == "" && KeyRun("") == 0; }
    assert FindAssignment("x") == None;
    assert ScrubAll([line]) == [line];
    assert Joined([line]) == line + "\n" by { JoinedCons(line, []); }
  }

  // ----- Newlines -----

  function Newlines(s: string): nat {
    if s == "" then 0 else Newlines(s[..|s| - 1]) + (if s[|s| - 1] == '\n' then 1 else 0)
  }

  lemma {:induction false} NewlinesConcat(a: string, b: string)
    ensures Newlines(a + b) == Newlines(a) + Newlines(b)
  {
    if b == "" {
      assert a + b == a;
    } else {
      NewlinesConcat(a, b[..|b| - 1]);
      assert (a + b)[..|a + b| - 1] == a + b[..|b| - 1];
    }
  }

  lemma {:induction false} NoNewlines(s: string)
    requires '\n' !in s
    ensures Newlines(s) == 0
  {
    if s != "" {
      NoNewlines(s[..|s| - 1]);
    }
  }

  lemma {:induction false} NewlinesOfJoined(lines: seq<string>)
    requires AreLines(lines)
    ensures Newlines(Joined(lines)) == |lines|
  {
    if lines != [] {
      var n := |lines| - 1;
      NewlinesOfJoined(lines[..n]);
      NoNewlines(lines[n]);
      NewlinesConcat(Joined(lines[..n]) + lines[n], "\n");
      NewlinesConcat(Joined(lines[..n]), lines[n]);
      assert "\n"[..0] == "";
    }
  }

  lemma NewlinesOfPieces(content: string)
    ensures Newlines(content) == |Pieces(content)| - (if content == "" || EndsInNewline(content) then 0 else 1)
  {
    hide Pieces, Joined;
    PiecesReadBack(content);
    NewlinesOfJoined(Pieces(content));
    if content != "" && !EndsInNewline(content) {
      NewlinesConcat(content, "\n");
      assert "\n"[..0] == "";
    }
  }

  /** Scrubbing neither adds nor drops a newline. */
  lemma ScrubKeepsNewlines(content: string)
    ensures Newlines(Scrub(content)) == Newlines(content)
  {
    hide Pieces, Lines, Scrub, EndsInNewline, Newlines;
    ScrubKeepsLines(content);
    LinesArePieces(content);
    NewlinesOfPieces(content);
    NewlinesOfPieces(Scrub(content));
    PiecesReadBack(content);
    PiecesReadBack(Scrub(content));
  }

  // ----- Noninterference -----

  /** The lines differ at most in a secret-named plain value or in the user info of a URL. */
  ghost predicate HideTheSame(l: string, m: string) {
    || l == m
    || (exists p, q :: l == Text(p) && m == Text(q) && DifferInSecret(p, q))
    || (exists p, q, scheme, u, u', rest :: l == Text(p) && m == Text(q) && DifferInUserInfo(p, q, scheme, u, u', rest))
  }

  predicate DifferInSecret(p: Parts, q: Parts) {
    IsAssignment(p) && IsAssignment(q) && SameLayout(p, q) && NamesSecret(p.key)
    && !HasUrlCredentials(p.value) && !HasUrlCredentials(q.value)
  }

  predicate DifferInUserInfo(p: Parts, q: Parts, scheme: string, u: string, u': string, rest: string) {
    IsAssignment(p) && IsAssignment(q) && SameLayout(p, q)
    && IsUrl(p.value, scheme, u, rest) && IsUrl(q.value, scheme, u', rest)
  }

  lemma HiddenLinesScrubAlike(l: string, m: string)
    requires HideTheSame(l, m)
    ensures ScrubLine(l) == ScrubLine(m)
  {
    hide ScrubLine, Text, DifferInSecret, DifferInUserInfo;
    if l != m {
      if p, q :| l == Text(p) && m == Text(q) && DifferInSecret(p, q) {
        DifferInSecretScrubs(p, q);
      } else {
        var p, q, scheme, u, u', rest :| l == Text(p) && m == Text(q) && DifferInUserInfo(p, q, scheme, u, u', rest);
        DifferInUserInfoScrubs(p, q, scheme, u, u', rest);
      }
    }
  }

  lemma DifferInSecretScrubs(p: Parts, q: Parts)
    requires DifferInSecret(p, q)
    ensures ScrubLine(Text(p)) == ScrubLine(Text(q))
  {
    SecretValuesDoNotShow(p, q);
  }

  lemma DifferInUserInfoScrubs(p: Parts, q: Parts, scheme: string, u: string, u': string, rest: string)
    requires DifferInUserInfo(p, q, scheme, u, u', rest)
    ensures ScrubLine(Text(p)) == ScrubLine(Text(q))
  {
    UrlCredentialsDoNotShow(p, q, scheme, u, u', rest);
  }

  /** Two files that differ line by line only in what they should hide scrub to one file. */
  lemma SecretsDoNotInterfere(a: string, b: string)
    requires |Lines(a)| == |Lines(b)| && (EndsInNewline(a) <==> EndsInNewline(b))
    requires forall i :: 0 <= i < |Lines(a)| ==> HideTheSame(Lines(a)[i], Lines(b)[i])
    ensures Scrub(a) == Scrub(b)
  {
    hide ScrubLine, HideTheSame;
    forall i | 0 <= i < |Lines(a)|
      ensures ScrubAll(Lines(a))[i] == ScrubAll(Lines(b))[i]
    {
      HiddenLinesScrubAlike(Lines(a)[i], Lines(b)[i]);
    }
    assert ScrubAll(Lines(a)) == ScrubAll(Lines(b));
  }
}
