/**
 * What the end of a transcript says a session is called, against what a scan of all of it would say.
 * A character stands for one byte; what JSON makes of a line is a parameter.
 */
module SessionTitle {
  import opened Text

  const MAX_TAIL_BYTES := 64 * 1024

  const NEWLINE := '\n'

  datatype Kind = Custom | Ai

  /** What the JSON reader finds in a line that has the right prefix, and which strings are white space only. */
  datatype Reader = Reader(custom: string -> string, ai: string -> string, blank: string -> bool)

  function Prefix(kind: Kind): string {
    match kind
    case Custom => "{\"type\":\"custom-title\""
    case Ai => "{\"type\":\"ai-title\""
  }

  function Blank(r: Reader, title: string): bool { title == "" || r.blank(title) }

  function NonBlankOr(r: Reader, candidate: string, current: string): string {
    if Blank(r, candidate) then current else candidate
  }

  function Keep(r: Reader, line: string, custom: string, ai: string): (string, string) {
    if Prefix(Custom) <= line then (NonBlankOr(r, r.custom(line), custom), ai)
    else if Prefix(Ai) <= line then (custom, NonBlankOr(r, r.ai(line), ai))
    else (custom, ai)
  }

  // ----- What a scan finds -----

  /** The non-blank title a line carries, or nothing. */
  function TitleIn(r: Reader, kind: Kind, line: string): string {
    if !(Prefix(kind) <= line) then ""
    else NonBlankOr(r, if kind == Custom then r.custom(line) else r.ai(line), "")
  }

  /** The line the last title of a kind is in. */
  predicate IsLast(r: Reader, kind: Kind, lines: seq<string>, i: nat) {
    i < |lines| && TitleIn(r, kind, lines[i]) != "" && forall j | i < j < |lines| :: TitleIn(r, kind, lines[j]) == ""
  }

  function LastTitle(r: Reader, kind: Kind, lines: seq<string>): string {
    if lines == [] then ""
    else
      var n := |lines| - 1;
      if TitleIn(r, kind, lines[n]) != "" then TitleIn(r, kind, lines[n]) else LastTitle(r, kind, lines[..n])
  }

  /** A scan finds the title of the last line that has one, and nothing only when no line has. */
  lemma {:induction false} LastTitleExactly(r: Reader, kind: Kind, lines: seq<string>)
    ensures LastTitle(r, kind, lines) == "" <==> forall j | 0 <= j < |lines| :: TitleIn(r, kind, lines[j]) == ""
    ensures LastTitle(r, kind, lines) != "" ==>
      exists i: nat :: IsLast(r, kind, lines, i) && LastTitle(r, kind, lines) == TitleIn(r, kind, lines[i])
  {
    hide TitleIn;
    if lines != [] {
      var n := |lines| - 1;
      if TitleIn(r, kind, lines[n]) != "" {
        assert IsLast(r, kind, lines, n);
      } else {
        LastTitleExactly(r, kind, lines[..n]);
        if LastTitle(r, kind, lines) != "" {
          var i: nat :| IsLast(r, kind, lines[..n], i) && LastTitle(r, kind, lines[..n]) == TitleIn(r, kind, lines[..n][i]);
          assert IsLast(r, kind, lines, i);
        }
      }
    }
  }

  lemma OneKindALine(line: string)
    ensures !(Prefix(Custom) <= line && Prefix(Ai) <= line)
  {
    assert Prefix(Custom)[9] == 'c' && Prefix(Ai)[9] == 'a';
  }

  lemma LastOfMore(r: Reader, kind: Kind, lines: seq<string>, line: string)
    ensures LastTitle(r, kind, lines + [line])
         == if TitleIn(r, kind, line) != "" then TitleIn(r, kind, line) else LastTitle(r, kind, lines)
  {
    assert (lines + [line])[..|lines|] == lines;
    hide TitleIn;
  }

  lemma KeepExactly(r: Reader, line: string, lines: seq<string>)
    ensures Keep(r, line, LastTitle(r, Custom, lines), LastTitle(r, Ai, lines))
         == (LastTitle(r, Custom, lines + [line]), LastTitle(r, Ai, lines + [line]))
  {
    hide Prefix, LastTitle;
    OneKindALine(line);
    LastOfMore(r, Custom, lines, line);
    LastOfMore(r, Ai, lines, line);
  }

  lemma NoLines(r: Reader)
    ensures LastTitle(r, Custom, []) == "" && LastTitle(r, Ai, []) == ""
  {
  }

  lemma NothingInNothing(r: Reader, kind: Kind, lines: seq<string>)
    ensures LastTitle(r, kind, lines + [""]) == LastTitle(r, kind, lines)
  {
    LastOfMore(r, kind, lines, "");
    hide LastTitle;
  }

  /** A line names a title when it begins with its record's own prefix and what is read in it is not blank. */
  lemma TitleInExactly(r: Reader, line: string, title: string)
    ensures title != "" ==> (TitleIn(r, Custom, line) == title
      <==> "{\"type\":\"custom-title\"" <= line && r.custom(line) == title && !r.blank(title))
    ensures title != "" ==> (TitleIn(r, Ai, line) == title
      <==> "{\"type\":\"ai-title\"" <= line && r.ai(line) == title && !r.blank(title))
  {
  }

  // ----- The scan -----

  function NewlineAt(s: string): (at: int)
    ensures -1 <= at < |s|
    ensures at < 0 <==> NEWLINE !in s
    ensures at >= 0 ==> s[at] == NEWLINE && NEWLINE !in s[..at]
  {
    if s == "" then -1
    else if s[0] == NEWLINE then 0
    else
      var at := NewlineAt(s[1..]);
      if at < 0 then -1
      else
        assert s[..at + 1] == [s[0]] + s[1..][..at];
        at + 1
  }

  function AfterFirstLine(tail: string): string {
    if NewlineAt(tail) < 0 then "" else tail[NewlineAt(tail) + 1..]
  }

  /** The lines a scan looks at: all of a whole file, all but the leading fragment of a tail. */
  function Scanned(tail: string, isWholeFile: bool): string {
    if isWholeFile then tail else AfterFirstLine(tail)
  }

  lemma LinesFrom(rest: string)
    ensures var end := NewlineAt(rest);
      Split(rest, NEWLINE) == if end < 0 then [rest] else [rest[..end]] + Split(rest[end + 1..], NEWLINE)
  {
    var end := NewlineAt(rest);
    if end < 0 {
      SplitWhole(rest, NEWLINE);
    } else {
      assert rest == rest[..end] + [NEWLINE] + rest[end + 1..];
      SplitAfter(rest[..end], NEWLINE, rest[end + 1..]);
    }
  }

  ghost predicate Remaining(rest: string, done: seq<string>, lines: seq<string>) {
    lines == done + Split(rest, NEWLINE) || (rest == "" && lines == done)
  }

  lemma FirstLineTaken(rest: string, line: string, done: seq<string>, lines: seq<string>)
    requires rest != "" && Remaining(rest, done, lines)
    requires line == if NewlineAt(rest) < 0 then rest else rest[..NewlineAt(rest)]
    ensures Remaining(if NewlineAt(rest) < 0 then "" else rest[NewlineAt(rest) + 1..], done + [line], lines)
  {
    LinesFrom(rest);
    hide Split, NewlineAt;
    if NewlineAt(rest) >= 0 {
      var more := Split(rest[NewlineAt(rest) + 1..], NEWLINE);
      assert done + ([line] + more) == (done + [line]) + more;
    }
  }

  /** The loop finds the last title of each kind among the scanned lines. */
  method FromTail(r: Reader, tail: string, isWholeFile: bool) returns (custom: string, ai: string)
    ensures var lines := Split(Scanned(tail, isWholeFile), NEWLINE);
      custom == LastTitle(r, Custom, lines) && ai == LastTitle(r, Ai, lines)
  {
    hide Prefix, LastTitle, Keep, Split, Scanned, NewlineAt;
    var rest := Scanned(tail, isWholeFile);
    assert Split("", NEWLINE) == [""] by { SplitWhole("", NEWLINE); }
    assert LastTitle(r, Custom, []) == "" && LastTitle(r, Ai, []) == "" by { NoLines(r); }
    ghost var lines, done := Split(rest, NEWLINE), [];
    custom, ai := "", "";
    while rest != ""
      invariant Remaining(rest, done, lines)
      invariant custom == LastTitle(r, Custom, done) && ai == LastTitle(r, Ai, done)
      decreases |rest|
    {
      var end := NewlineAt(rest);
      var line := if end < 0 then rest else rest[..end];
      FirstLineTaken(rest, line, done, lines);
      KeepExactly(r, line, done);
      rest := if end < 0 then "" else rest[end + 1..];
      var kept := Keep(r, line, custom, ai);
      custom, ai := kept.0, kept.1;
      done := done + [line];
    }
    NothingInNothing(r, Custom, done);
    NothingInNothing(r, Ai, done);
  }

  // ----- The tail against the whole file -----

  /** The lines of a file up to the cut and the fragment after it. */
  function UpToTheCut(before: string, tail: string): seq<string> {
    var a, b := Split(before, NEWLINE), Split(tail, NEWLINE);
    a[..|a| - 1] + [a[|a| - 1] + b[0]]
  }

  /** What one more leading symbol does to a list of lines. */
  function Led(c: char, lines: seq<string>): seq<string>
    requires lines != []
  {
    if c == NEWLINE then [""] + lines else [[c] + lines[0]] + lines[1..]
  }

  lemma SplitLed(s: string)
    requires s != ""
    ensures Split(s, NEWLINE) == Led(s[0], Split(s[1..], NEWLINE))
  {
  }

  lemma LedJoin(c: char, a: seq<string>, b: seq<string>)
    requires a != [] && b != []
    ensures var joined := a[..|a| - 1] + [a[|a| - 1] + b[0]];
      var led := Led(c, a);
      Led(c, joined + b[1..]) == led[..|led| - 1] + [led[|led| - 1] + b[0]] + b[1..]
  {
    var joined, led := a[..|a| - 1] + [a[|a| - 1] + b[0]], Led(c, a);
    if c == NEWLINE {
      assert led[..|led| - 1] == [""] + a[..|a| - 1];
    } else if |a| == 1 {
      assert [c] + (a[0] + b[0]) == [c] + a[0] + b[0];
    } else {
      assert led[..|led| - 1] == [[c] + a[0]] + a[1..|a| - 1];
      assert (joined + b[1..])[1..] == a[1..|a| - 1] + [a[|a| - 1] + b[0]] + b[1..];
    }
  }

  lemma {:induction false} LinesOfBoth(before: string, tail: string)
    ensures Split(before + tail, NEWLINE) == UpToTheCut(before, tail) + Split(tail, NEWLINE)[1..]
  {
    var b := Split(tail, NEWLINE);
    if before == "" {
      assert before + tail == tail && Split(before, NEWLINE) == [""];
      assert "" + b[0] == b[0];
      assert UpToTheCut(before, tail) == [b[0]];
    } else {
      assert (before + tail)[1..] == before[1..] + tail;
      hide Led;
      LinesOfBoth(before[1..], tail);
      SplitLed(before);
      SplitLed(before + tail);
      hide Split;
      LedJoin(before[0], Split(before[1..], NEWLINE), b);
    }
  }

  /** Where in a file its i-th line starts. */
  function Start(lines: seq<string>, i: nat): nat
    requires i <= |lines|
  {
    if i == 0 then 0 else Start(lines, i - 1) + |lines[i - 1]| + 1
  }

  lemma {:induction false} StartsAscend(lines: seq<string>, i: nat, j: nat)
    requires i < j <= |lines|
    ensures Start(lines, i) < Start(lines, j)
  {
    if i < j - 1 { StartsAscend(lines, i, j - 1); }
  }

  lemma {:induction false} StartsAgree(a: seq<string>, b: seq<string>, i: nat)
    requires i <= |a| && a <= b
    ensures Start(a, i) == Start(b, i)
  {
    if i > 0 { StartsAgree(a, b, i - 1); }
  }

  lemma {:induction false} StartOfSplit(s: string, n: nat)
    requires n == |Split(s, NEWLINE)| - 1
    ensures Start(Split(s, NEWLINE), n) + |Split(s, NEWLINE)[n]| == |s|
  {
    if s != "" {
      var lines, rest := Split(s, NEWLINE), Split(s[1..], NEWLINE);
      StartOfSplit(s[1..], |rest| - 1);
      if s[0] == NEWLINE {
        assert lines == [""] + rest;
        Shifted(lines, rest, |rest| - 1);
      } else {
        assert lines == [[s[0]] + rest[0]] + rest[1..];
        if n > 0 { Longer(lines, rest, n); }
      }
    }
  }

  lemma {:induction false} Shifted(lines: seq<string>, rest: seq<string>, n: nat)
    requires lines == [""] + rest && n <= |rest|
    ensures Start(lines, n + 1) == 1 + Start(rest, n)
  {
    if n > 0 { Shifted(lines, rest, n - 1); }
  }

  lemma {:induction false} Longer(lines: seq<string>, rest: seq<string>, n: nat)
    requires 0 < n <= |rest| == |lines| && |lines[0]| == |rest[0]| + 1 && lines[1..] == rest[1..]
    ensures Start(lines, n) == 1 + Start(rest, n)
  {
    if n > 1 {
      Longer(lines, rest, n - 1);
      assert lines[n - 1] == lines[1..][n - 2] && rest[n - 1] == rest[1..][n - 2];
    }
  }

  /** The first line after the leading fragment starts just past the first newline in the tail. */
  lemma TailLinesStart(before: string, tail: string)
    requires NewlineAt(tail) >= 0
    ensures var lines := Split(before + tail, NEWLINE);
      |UpToTheCut(before, tail)| < |lines| && Start(lines, |UpToTheCut(before, tail)|) == |before| + NewlineAt(tail) + 1
  {
    var a, head := Split(before, NEWLINE), UpToTheCut(before, tail);
    var lines := Split(before + tail, NEWLINE);
    LinesOfBoth(before, tail);
    LinesFrom(tail);
    StartOfSplit(before, |a| - 1);
    hide Split, NewlineAt;
    var n := |a| - 1;
    assert a[..n] <= a && a[..n] <= lines by { assert lines[..n] == a[..n]; }
    StartsAgree(a[..n], a, n);
    StartsAgree(a[..n], lines, n);
    assert lines[n] == a[n] + Split(tail, NEWLINE)[0];
  }

  /** The lines a tail scan looks at are the file's, less those up to the cut and its fragment. */
  lemma TailLines(before: string, tail: string)
    ensures NewlineAt(tail) < 0 ==> Split(before + tail, NEWLINE) == UpToTheCut(before, tail)
    ensures NewlineAt(tail) >= 0 ==>
      Split(before + tail, NEWLINE) == UpToTheCut(before, tail) + Split(Scanned(tail, false), NEWLINE)
  {
    LinesOfBoth(before, tail);
    LinesFrom(tail);
    hide Split;
  }

  lemma {:induction false} LastOfBoth(r: Reader, kind: Kind, a: seq<string>, b: seq<string>)
    ensures LastTitle(r, kind, a + b)
         == if LastTitle(r, kind, b) != "" then LastTitle(r, kind, b) else LastTitle(r, kind, a)
  {
    hide TitleIn;
    if b == [] {
      assert a + b == a;
    } else {
      var n := |b| - 1;
      assert (a + b)[..|a + b| - 1] == a + b[..n];
      LastOfBoth(r, kind, a, b[..n]);
    }
  }

  /** The last title line of a kind starts after the first newline in what was read from `cut` on. */
  ghost predicate InTheTail(r: Reader, kind: Kind, file: string, cut: nat)
    requires cut <= |file|
  {
    var lines := Split(file, NEWLINE);
    NEWLINE in file[cut..] &&
    exists i: nat :: IsLast(r, kind, lines, i) && Start(lines, i) > cut + NewlineAt(file[cut..])
  }

  /**
   * For every file and every cut, the title found in the tail is empty or the one the whole file gives, and is the
   * whole file's exactly when that has none or its line starts after the first newline in the tail.
   */
  lemma TailAgreesExactly(r: Reader, kind: Kind, file: string, cut: nat)
    requires cut <= |file|
    ensures var found := LastTitle(r, kind, Split(Scanned(file[cut..], false), NEWLINE));
      var whole := LastTitle(r, kind, Split(file, NEWLINE));
      (found == "" || found == whole) && (found == whole <==> whole == "" || InTheTail(r, kind, file, cut))
  {
    var before, tail := file[..cut], file[cut..];
    assert file == before + tail;
    var lines, head, seen := Split(file, NEWLINE), UpToTheCut(before, tail), Split(Scanned(tail, false), NEWLINE);
    TailLines(before, tail);
    LastTitleExactly(r, kind, lines);
    hide LastTitle, TitleIn, Split, UpToTheCut;
    if NewlineAt(tail) < 0 {
      SplitWhole<char>("", NEWLINE);
      NothingInNothing(r, kind, []);
      NoLines(r);
      assert [""] == [] + [""];
    } else {
      LastOfBoth(r, kind, head, seen);
      TailLinesStart(before, tail);
      LastTitleExactly(r, kind, seen);
      InTheTailExactly(r, kind, lines, head, seen, cut + NewlineAt(tail));
    }
  }

  lemma InTheTailExactly(r: Reader, kind: Kind, lines: seq<string>, head: seq<string>, seen: seq<string>, newline: nat)
    requires lines == head + seen && seen != [] && Start(lines, |head|) == newline + 1
    ensures LastTitle(r, kind, seen) != "" <==> exists i: nat :: IsLast(r, kind, lines, i) && Start(lines, i) > newline
  {
    LastTitleExactly(r, kind, seen);
    hide LastTitle, TitleIn;
    if LastTitle(r, kind, seen) != "" {
      var i: nat :| IsLast(r, kind, seen, i);
      assert IsLast(r, kind, lines, |head| + i) by {
        forall j | |head| + i < j < |lines| ensures TitleIn(r, kind, lines[j]) == "" { assert lines[j] == seen[j - |head|]; }
      }
      if i > 0 { StartsAscend(lines, |head|, |head| + i); }
    }
    if i: nat :| IsLast(r, kind, lines, i) && Start(lines, i) > newline {
      if i < |head| { StartsAscend(lines, i, |head|); }
      assert seen[i - |head|] == lines[i];
    }
  }

  // ----- The choice among the rungs -----

  /** Where the production read seeks to. */
  function TailStart(file: string): (start: nat)
    ensures start <= |file|
  {
    if |file| > MAX_TAIL_BYTES then |file| - MAX_TAIL_BYTES else 0
  }

  /** The read begins so that no more than 64 KiB are left, and all of a file that is no longer. */
  lemma TailStartExactly(file: string)
    ensures |file[TailStart(file)..]| == if |file| <= 65536 then |file| else 65536
  {
  }

  function Found(r: Reader, kind: Kind, file: string): string {
    var start := TailStart(file);
    LastTitle(r, kind, Split(Scanned(file[start..], start == 0), NEWLINE))
  }

  function Whole(r: Reader, kind: Kind, file: string): string { LastTitle(r, kind, Split(file, NEWLINE)) }

  /** A custom title, else the title file's, else an AI title. */
  function Choose(r: Reader, custom: string, saved: string, ai: string): string {
    if custom != "" then custom else NonBlankOr(r, saved, ai)
  }

  /** The scan of the tail reaches what a scan of the whole file would find of this kind. */
  ghost predicate Reaches(r: Reader, kind: Kind, file: string) {
    Whole(r, kind, file) == "" || TailStart(file) == 0 || InTheTail(r, kind, file, TailStart(file))
  }

  lemma FoundExactly(r: Reader, kind: Kind, file: string)
    ensures Found(r, kind, file) == if Reaches(r, kind, file) then Whole(r, kind, file) else ""
  {
    var start := TailStart(file);
    if start == 0 {
      assert file[0..] == file;
    } else {
      TailAgreesExactly(r, kind, file, start);
    }
    hide LastTitle, Split, InTheTail;
  }

  /**
   * The choice is the whole file's exactly when the tail reaches the custom title and, where neither that nor the title
   * file decides, the AI title too; or, the custom title being out of reach, when the next rung happens to spell it.
   */
  lemma ChoiceExactly(r: Reader, file: string, saved: string)
    ensures var (custom, ai) := (Whole(r, Custom, file), Whole(r, Ai, file));
      Choose(r, Found(r, Custom, file), saved, Found(r, Ai, file)) == Choose(r, custom, saved, ai)
      <==> if Reaches(r, Custom, file) then custom != "" || !Blank(r, saved) || Reaches(r, Ai, file)
           else custom == NonBlankOr(r, saved, if Reaches(r, Ai, file) then ai else "")
  {
    FoundExactly(r, Custom, file);
    FoundExactly(r, Ai, file);
    hide Found, Whole, InTheTail;
  }
}
