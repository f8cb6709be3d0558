/**
 * Names inside a backup archive: what never goes in, and where an entry may land when it comes out.
 * A path is the list of its segments below the filesystem root; names are the strings themselves.
 */
module ArchivePaths {
  import opened Results
  import opened Text

  type Path = seq<string>

  predicate IsSlash(c: char) { c == '/' }

  /** Either separator becomes a slash, and slashes at both ends go. */
  function Normalised(path: string): string {
    Trimmed(Replaced(path, '\\', '/'))
  }

  /** Either separator becomes a slash, and only the trailing slashes go. */
  function EntryPath(entryName: string): string {
    TrimEnd(Replaced(entryName, '\\', '/'), IsSlash)
  }

  /** A text between slashes at its ends: what is left when they go. */
  ghost predicate Bared(text: string, bare: string, atFront: bool) {
    && (bare != "" ==> bare[|bare| - 1] != '/' && (atFront ==> bare[0] != '/'))
    && exists i, j :: && 0 <= i <= j <= |text| && bare == text[i..j] && (atFront || i == 0)
                      && (forall k | 0 <= k < i :: text[k] == '/') && forall k | j <= k < |text| :: text[k] == '/'
  }

  lemma BaredAt(text: string, bare: string, atFront: bool, i: nat, j: nat)
    requires i <= j <= |text| && bare == text[i..j] && (atFront || i == 0)
    requires (forall k | 0 <= k < i :: text[k] == '/') && forall k | j <= k < |text| :: text[k] == '/'
    requires bare != "" ==> bare[|bare| - 1] != '/' && (atFront ==> bare[0] != '/')
    ensures Bared(text, bare, atFront)
  {
  }

  lemma EndIsBared(text: string)
    ensures Bared(text, TrimEnd(text, IsSlash), false)
  {
    var e := TrimEnd(text, IsSlash);
    hide TrimEnd, Bared;
    assert e == text[..|e|] == text[0..|e|];
    BaredAt(text, e, false, 0, |e|);
  }

  lemma BothEndsAreBared(text: string, a: string, t: string, i: nat)
    requires i <= |text| && a == text[i..] && t <= a
    requires (forall k | 0 <= k < i :: text[k] == '/') && forall k | |t| <= k < |a| :: a[k] == '/'
    requires t != "" ==> a[0] != '/' && t[|t| - 1] != '/'
    ensures Bared(text, t, true)
  {
    hide Bared;
    var j := i + |t|;
    assert t == a[..|t|] == text[i..j];
    assert t != "" ==> t[0] == a[0];
    forall k | j <= k < |text| ensures text[k] == '/' { assert text[k] == a[k - i]; }
    BaredAt(text, t, true, i, j);
  }

  lemma TrimmedIsBared(text: string)
    ensures Bared(text, Trimmed(text), true)
  {
    var a := TrimStart(text, IsSlash);
    var t := TrimEnd(a, IsSlash);
    hide TrimStart, TrimEnd, Bared;
    BothEndsAreBared(text, a, t, |text| - |a|);
  }

  /** Backslashes are slashes; the walk's names lose the slashes at both ends, an entry's name those at its end only. */
  lemma NormalisedExactly(path: string)
    ensures var text := Replaced(path, '\\', '/');
      Bared(text, Normalised(path), true) && Bared(text, EntryPath(path), false)
  {
    hide Bared, Replaced, Trimmed;
    TrimmedIsBared(Replaced(path, '\\', '/'));
    EndIsBared(Replaced(path, '\\', '/'));
  }

  // ----- What never goes into an archive -----

  predicate MatchesAt(s: string, i: nat, piece: string) {
    i + |piece| <= |s| && forall k | 0 <= k < |piece| :: Lower(s[i + k]) == piece[k]
  }

  predicate IsTemporary(name: string) {
    || (|name| >= 4 && MatchesAt(name, |name| - 4, ".tmp"))
    || exists i | 0 <= i <= |name| :: MatchesAt(name, i, ".tmp/")
  }

  predicate IsBackupTree(name: string) {
    name == "org/backup" || "org/backup/" <= name
  }

  predicate Excluded(relativePath: string) {
    var name := Normalised(relativePath);
    IsTemporary(name) || IsBackupTree(name)
  }

  lemma {:induction false} TrimStartExtends(s: string, more: string)
    requires TrimStart(s, IsSlash) != ""
    ensures TrimStart(s + more, IsSlash) == TrimStart(s, IsSlash) + more
  {
    if s != "" && s[0] == '/' {
      assert (s + more)[1..] == s[1..] + more;
      TrimStartExtends(s[1..], more);
    }
  }

  function Trimmed(s: string): string {
    TrimEnd(TrimStart(s, IsSlash), IsSlash)
  }

  lemma TrimEndExtends(a: string, tail: string)
    requires TrimEnd(a, IsSlash) != "" && tail != "" && tail[0] == '/'
    ensures var n := TrimEnd(a, IsSlash);
            var m := TrimEnd(a + tail, IsSlash);
            n <= m && (|m| > |n| ==> m[|n|] == '/')
  {
    var t := a + tail;
    var n, m := TrimEnd(a, IsSlash), TrimEnd(t, IsSlash);
    var last := |n| - 1;
    assert n[last] == a[last] == t[last];
    assert !IsSlash(t[last]);
    assert |m| > last;
    forall k | 0 <= k < |n| ensures n[k] == m[k] {
      assert n[k] == a[k] == t[k] == m[k];
    }
    if |m| > |n| {
      assert m[|n|] == t[|n|];
    }
  }

  lemma TrimmedBelow(s: string, tail: string)
    requires Trimmed(s) != "" && tail != "" && tail[0] == '/'
    ensures Trimmed(s) <= Trimmed(s + tail)
    ensures |Trimmed(s + tail)| > |Trimmed(s)| ==> Trimmed(s + tail)[|Trimmed(s)|] == '/'
  {
    TrimStartExtends(s, tail);
    TrimEndExtends(TrimStart(s, IsSlash), tail);
  }

  lemma NormalisedBelow(path: string, rest: string)
    requires Normalised(path) != ""
    ensures var n := Normalised(path);
            var m := Normalised(path + "/" + rest);
            n <= m && (|m| > |n| ==> m[|n|] == '/')
  {
    hide Replaced, Trimmed;
    ReplacedBelow(path, rest);
    TrimmedBelow(Replaced(path, '\\', '/'), "/" + Replaced(rest, '\\', '/'));
  }

  lemma ReplacedBelow(path: string, rest: string)
    ensures Replaced(path + "/" + rest, '\\', '/') == Replaced(path, '\\', '/') + ("/" + Replaced(rest, '\\', '/'))
  {
    hide Replaced;
  }

  lemma TemporaryBelow(n: string, m: string)
    requires IsTemporary(n) && n <= m && |m| > |n| && m[|n|] == '/'
    ensures IsTemporary(m)
  {
    if |n| >= 4 && MatchesAt(n, |n| - 4, ".tmp") {
      assert MatchesAt(m, |n| - 4, ".tmp/");
    } else {
      var i :| 0 <= i <= |n| && MatchesAt(n, i, ".tmp/");
      assert MatchesAt(m, i, ".tmp/");
    }
  }

  lemma BackupTreeBelow(n: string, m: string)
    requires IsBackupTree(n) && n <= m && |m| > |n| && m[|n|] == '/'
    ensures IsBackupTree(m)
  {
    var tree := "org/backup/";
    if !(tree <= n) {
      assert n + "/" == tree;
      assert m[..|n| + 1] == tree;
    }
  }

  /** Everything below an excluded path is excluded, whatever the names are made of. */
  lemma ExcludedIsInherited(path: string, rest: string)
    requires Excluded(path)
    ensures Excluded(path + "/" + rest)
  {
    var n, m := Normalised(path), Normalised(path + "/" + rest);
    NormalisedBelow(path, rest);
    if |m| == |n| {
      assert m == n;
    } else if IsTemporary(n) {
      TemporaryBelow(n, m);
    } else {
      BackupTreeBelow(n, m);
    }
  }

  /** The four letters at the end of a name, each in either case. */
  predicate EndsInTmp(name: string) {
    var n := |name|;
    n >= 4 && name[n - 4] == '.' && name[n - 3] in "tT" && name[n - 2] in "mM" && name[n - 1] in "pP"
  }

  lemma SuffixIsTmp(name: string)
    ensures EndsInTmp(name) <==> |name| >= 4 && MatchesAt(name, |name| - 4, ".tmp")
  {
    if |name| >= 4 {
      var n := |name|;
      assert ".tmp"[0] == '.' && ".tmp"[1] == 't' && ".tmp"[2] == 'm' && ".tmp"[3] == 'p';
      assert name[n - 4] == name[(n - 4) + 0] && name[n - 3] == name[(n - 4) + 1];
      assert name[n - 2] == name[(n - 4) + 2] && name[n - 1] == name[(n - 4) + 3];
    }
  }

  lemma MatchesFurtherOn(s: string, off: nat, i: nat, piece: string)
    requires off <= i && off <= |s| && MatchesAt(s, i, piece)
    ensures MatchesAt(s[off..], i - off, piece)
  {
    var tail, j := s[off..], i - off;
    forall k | 0 <= k < |piece| ensures Lower(tail[j + k]) == piece[k] {
      assert tail[j + k] == s[i + k];
    }
  }

  lemma SlashIsPast(head: string, tail: string, i: nat)
    requires '/' !in head && i < |head + "/" + tail| && (head + "/" + tail)[i] == '/'
    ensures i >= |head|
  {
    assert forall k | 0 <= k < |head| :: (head + "/" + tail)[k] == head[k] && head[k] in head;
  }

  /** A match that ends in a slash ends where a segment does. */
  lemma MatchEndsASegment(head: string, tail: string, i: nat)
    requires '/' !in head && MatchesAt(head + "/" + tail, i, ".tmp/")
    ensures if i + 4 == |head| then MatchesAt(head, i, ".tmp")
            else i > |head| && MatchesAt(tail, i - |head| - 1, ".tmp/")
  {
    var s := head + "/" + tail;
    assert ".tmp/"[4] == '/' && Lower(s[i + 4]) == '/';
    assert ".tmp/"[0] == '.' && ".tmp/"[1] == 't' && ".tmp/"[2] == 'm' && ".tmp/"[3] == 'p';
    assert Lower(s[i + 0]) == '.' && Lower(s[i + 1]) == 't' && Lower(s[i + 2]) == 'm' && Lower(s[i + 3]) == 'p';
    assert s[|head|] == '/' && s[|head| + 1..] == tail;
    assert i + 4 >= |head| by { SlashIsPast(head, tail, i + 4); }
    if i + 4 == |head| {
      assert ".tmp"[0] == '.' && ".tmp"[1] == 't' && ".tmp"[2] == 'm' && ".tmp"[3] == 'p';
      assert s[..|head|] == head;
      assert head[i] == s[i] && head[i + 1] == s[i + 1] && head[i + 2] == s[i + 2] && head[i + 3] == s[i + 3];
    } else {
      MatchesFurtherOn(s, |head| + 1, i, ".tmp/");
    }
  }

  lemma TemporaryStep(head: string, tail: string)
    requires '/' !in head
    ensures IsTemporary(head + "/" + tail) <==> EndsInTmp(head) || IsTemporary(tail)
  {
    var s := head + "/" + tail;
    SuffixIsTmp(head);
    SuffixIsTmp(tail);
    SuffixIsTmp(s);
    if EndsInTmp(head) { assert MatchesAt(s, |head| - 4, ".tmp/"); }
    if i: nat :| i <= |tail| && MatchesAt(tail, i, ".tmp/") { assert MatchesAt(s, |head| + 1 + i, ".tmp/"); }
    if EndsInTmp(tail) { assert EndsInTmp(s); }
    if EndsInTmp(s) {
      assert s[|head|] == '/';
      assert |tail| >= 4;
      assert EndsInTmp(tail);
    }
    if i: nat :| i <= |s| && MatchesAt(s, i, ".tmp/") { MatchEndsASegment(head, tail, i); }
  }

  lemma {:induction false} TemporaryExactly(name: string)
    ensures IsTemporary(name) <==> exists s | s in Split(name, '/') :: EndsInTmp(s)
    decreases |name|
  {
    if '/' in name {
      var head := Split(name, '/')[0];
      FirstPiece(name);
      var tail := name[|head| + 1..];
      TemporaryExactly(tail);
      TemporaryStep(head, tail);
      SplitAfter(head, '/', tail);
      assert name == head + ['/'] + tail && head + ['/'] + tail == head + "/" + tail;
    } else {
      SplitWhole(name, '/');
      SuffixIsTmp(name);
      assert ".tmp/"[4] == '/';
      forall i: nat | i <= |name| ensures !MatchesAt(name, i, ".tmp/") {
        assert i + 5 <= |name| ==> name[i + 4] in name;
      }
    }
  }

  lemma OnePieceIsWhole(name: string)
    ensures |Split(name, '/')| == 1 ==> '/' !in name
  {
    var parts := Split(name, '/');
    JoinOfSplit(name, '/');
    assert parts[0] in parts;
  }

  lemma FirstPiece(name: string)
    requires '/' in name
    ensures var head := Split(name, '/')[0];
      |head| < |name| && '/' !in head && name == head + "/" + name[|head| + 1..]
  {
    JoinOfSplit(name, '/');
    var parts := Split(name, '/');
    assert parts[0] in parts;
    assert |parts| > 1 by { OnePieceIsWhole(name); }
    assert name == parts[0] + ['/'] + Join(parts[1..], '/');
  }

  lemma BackupTreeExactly(name: string)
    ensures IsBackupTree(name) <==> ["org", "backup"] <= Split(name, '/')
  {
    if IsBackupTree(name) { BackupTreeSplits(name); }
    if ["org", "backup"] <= Split(name, '/') { BackupTreeJoins(name); }
    hide IsBackupTree, Split;
  }

  lemma BackupTreeSplits(name: string)
    requires IsBackupTree(name)
    ensures ["org", "backup"] <= Split(name, '/')
  {
    hide Split;
    SplitWhole("backup", '/');
    SplitAfter("org", '/', name[4..]);
    assert name == "org" + ['/'] + name[4..];
    if name == "org/backup" {
      assert name[4..] == "backup";
    } else {
      var rest := name[11..];
      SplitAfter("backup", '/', rest);
      assert name[4..] == "backup" + ['/'] + rest;
    }
  }

  lemma BackupTreeJoins(name: string)
    requires ["org", "backup"] <= Split(name, '/')
    ensures IsBackupTree(name)
  {
    var parts := Split(name, '/');
    JoinOfSplit(name, '/');
    hide Split;
    assert parts[0] == "org" && parts[1] == "backup";
    var rest := parts[1..];
    assert Join(parts, '/') == "org" + ['/'] + Join(rest, '/');
    if |parts| == 2 {
      assert Join(rest, '/') == "backup";
    } else {
      assert Join(rest, '/') == "backup" + ['/'] + Join(rest[1..], '/');
    }
    hide Join;
    assert |parts| == 2 ==> name == "org/backup";
    assert |parts| > 2 ==> name == "org/backup/" + Join(rest[1..], '/');
  }

  /**
   * What never goes in, by the segments between separators of either kind: a name ending in .tmp in any case, or the
   * backup folder at the top.
   */
  lemma ExcludedExactly(path: string)
    ensures var segments := Split(Normalised(path), '/');
      Excluded(path) <==> (exists s | s in segments :: EndsInTmp(s)) || ["org", "backup"] <= segments
  {
    TemporaryExactly(Normalised(path));
    BackupTreeExactly(Normalised(path));
  }

  // ----- Lexical path arithmetic -----

  predicate Plain(segment: string) {
    segment != "" && segment != "." && segment != ".." && '/' !in segment
  }

  predicate Canonical(p: Path) {
    forall s | s in p :: Plain(s)
  }

  /** Path.GetFullPath of a path combined with further segments. */
  function Resolve(at: Path, segments: seq<string>): Path
    decreases |segments|
  {
    if segments == [] then at
    else if segments[0] == "" || segments[0] == "." then Resolve(at, segments[1..])
    else if segments[0] == ".." then Resolve(if at == [] then [] else at[..|at| - 1], segments[1..])
    else Resolve(at + [segments[0]], segments[1..])
  }

  function Shared(a: Path, b: Path): (n: nat)
    ensures n <= |a| && n <= |b| && a[..n] == b[..n]
    ensures n < |a| && n < |b| ==> a[n] != b[n]
  {
    if a != [] && b != [] && a[0] == b[0] then
      var n := 1 + Shared(a[1..], b[1..]);
      assert a[..n] == [a[0]] + a[1..][..n - 1] && b[..n] == [b[0]] + b[1..][..n - 1];
      n
    else 0
  }

  function Climb(n: nat): (ups: seq<string>)
    ensures |ups| == n
    ensures forall u | u in ups :: u == ".."
  {
    seq(n, i => "..")
  }

  /** Path.GetRelativePath: up to the shared part, then down. */
  function RelativePath(root: Path, full: Path): string {
    if root == full then "."
    else
      var n := Shared(root, full);
      Join(Climb(|root| - n) + full[n..], '/')
  }

  predicate IsPathRooted(name: string, windows: bool) {
    || (name != "" && name[0] == '/')
    || (windows && |name| >= 2 && 'a' <= Lower(name[0]) <= 'z' && name[1] == ':')
  }

  predicate Outside(root: Path, full: Path) {
    var relative := RelativePath(root, full);
    || IsPathRooted(relative, false)
    || relative == "."
    || ".." in Split(relative, '/')
  }

  lemma RelativeSplits(parts: seq<string>)
    requires parts != [] && forall p | p in parts :: '/' !in p
    ensures Split(Join(parts, '/'), '/') == parts
    ensures parts[0] != "" && parts[0] != "." ==> Join(parts, '/') != "." && !IsPathRooted(Join(parts, '/'), false)
  {
    SplitOfJoin(parts, '/');
    if parts[0] != "" {
      JoinStart(parts, '/');
      SplitWhole(".", '/');
    }
    hide Split, Join;
  }

  lemma PartsAreNames(p: Path)
    requires Canonical(p)
    ensures ".." !in p && "." !in p && "" !in p && forall s | s in p :: '/' !in s
  {
    assert forall s | s in p :: Plain(s);
    assert !Plain("..") && !Plain(".") && !Plain("");
  }

  /** Outside asks exactly one thing: is the destination NOT a proper ancestor of the target. */
  lemma OutsideExactly(root: Path, full: Path)
    requires Canonical(root) && Canonical(full)
    ensures Outside(root, full) <==> !(root < full)
  {
    var n := Shared(root, full);
    hide Split, Join, Shared, IsPathRooted, Climb;
    var down := full[n..];
    assert Canonical(down);
    PartsAreNames(down);
    hide Canonical;
    var parts := Climb(|root| - n) + down;
    assert n == |root| ==> root == full[..n];
    if root != full {
      assert forall s | s in parts :: s == ".." || s in down;
      RelativeSplits(parts);
      if n == |root| {
        assert parts == down && parts[0] in down;
      } else {
        assert parts[0] in Climb(|root| - n) && parts[0] in parts;
      }
    }
  }

  lemma JoinStart(parts: seq<string>, sep: char)
    requires parts != [] && parts[0] != ""
    ensures Join(parts, sep) != "" && Join(parts, sep)[0] == parts[0][0]
  {
  }

  // ----- Where an entry may land -----

  datatype Refusal = UnsafeEntry(name: string)

  predicate Climbs(name: string, windows: bool) {
    || (name != "" && name[0] == '/')
    || IsPathRooted(name, windows)
    || ".." in Split(name, '/')
  }

  predicate NamesAWindowsStream(name: string, windows: bool) {
    windows && ':' in name
  }

  predicate Escapes(name: string, windows: bool) {
    Climbs(name, windows) || NamesAWindowsStream(name, windows)
  }

  function Contained(destination: Path, name: string, raw: string): Result<Option<Path>, Refusal> {
    var full := Resolve(destination, Split(name, '/'));
    if Outside(destination, full) then Err(UnsafeEntry(raw)) else Ok(Some(full))
  }

  /** Name checks first, with or without a destination; then, given one, the place below it. */
  function TargetFor(entryName: string, destination: Option<Path>, windows: bool): Result<Option<Path>, Refusal> {
    var name := EntryPath(entryName);
    if name == "" || Escapes(name, windows) then Err(UnsafeEntry(entryName))
    else if destination.None? then Ok(None)
    else Contained(destination.value, name, entryName)
  }

  /** By itself a name is refused when it is empty, starts at the root, climbs, or on Windows holds a colon. */
  lemma SafeNameExactly(entryName: string, windows: bool)
    ensures var name := EntryPath(entryName);
      TargetFor(entryName, None, windows).Ok?
      <==> name != "" && name[0] != '/' && ".." !in Split(name, '/') && (windows ==> ':' !in name)
    ensures TargetFor(entryName, None, windows).Ok? ==> TargetFor(entryName, None, windows).value == None
  {
  }

  lemma RefusalNamesTheEntry(entryName: string, destination: Option<Path>, windows: bool)
    ensures TargetFor(entryName, destination, windows).Err? ==>
      TargetFor(entryName, destination, windows).error == UnsafeEntry(entryName)
  {
  }

  predicate Counts(segment: string) { segment != "" && segment != "." }

  /** The segments of an entry name that survive resolution. */
  function Segments(entryName: string): Path {
    Filter(Counts, Split(EntryPath(entryName), '/'))
  }

  lemma {:induction false} ResolveWithoutClimbing(at: Path, segments: seq<string>)
    requires ".." !in segments
    ensures Resolve(at, segments) == at + Filter(Counts, segments)
    decreases |segments|
  {
    if segments != [] {
      ResolveWithoutClimbing(if Counts(segments[0]) then at + [segments[0]] else at, segments[1..]);
      assert at + [segments[0]] + Filter(Counts, segments[1..]) == at + ([segments[0]] + Filter(Counts, segments[1..]));
    }
  }

  /** Acceptance, in terms of the name alone; and an accepted name lands strictly below the destination. */
  lemma TargetExactly(entryName: string, destination: Path, windows: bool)
    requires Canonical(destination)
    ensures TargetFor(entryName, Some(destination), windows).Ok? <==>
            TargetFor(entryName, None, windows).Ok? && Segments(entryName) != []
    ensures TargetFor(entryName, Some(destination), windows).Ok? ==>
              var target := TargetFor(entryName, Some(destination), windows).value;
              target == Some(destination + Segments(entryName))
              && destination < target.value && Canonical(target.value)
  {
    var name := EntryPath(entryName);
    if name != "" && !Escapes(name, windows) {
      var parts := Split(name, '/');
      ResolveWithoutClimbing(destination, parts);
      assert Canonical(Segments(entryName));
      OutsideExactly(destination, destination + Segments(entryName));
    }
  }

  /** Names alone are not enough: checking without a destination accepts what extraction then refuses. */
  lemma VerifyAcceptsADotThatExtractionRefuses(destination: Path)
    requires Canonical(destination)
    ensures TargetFor("./", None, false).Ok?
    ensures TargetFor("./", Some(destination), false).Err?
  {
    assert Replaced("./", '\\', '/') == "./";
    assert EntryPath("./") == TrimEnd(".", IsSlash) == ".";
    SplitWhole(".", '/');
    TargetExactly("./", destination, false);
  }

  /** No separator of either kind survives inside a segment. */
  lemma SegmentsHaveNoSeparators(entryName: string)
    ensures forall s | s in Segments(entryName) :: '/' !in s && '\\' !in s
  {
    var name := EntryPath(entryName);
    forall s | s in Segments(entryName)
      ensures '\\' !in s
    {
      if '\\' in s {
        JoinHasParts(Split(name, '/'), '/', s, '\\');
        JoinOfSplit(name, '/');
      }
    }
  }

  lemma {:induction false} JoinHasParts(parts: seq<string>, sep: char, p: string, c: char)
    requires p in parts && c in p
    ensures c in Join(parts, sep)
  {
    if |parts| > 1 && p != parts[0] {
      JoinHasParts(parts[1..], sep, p, c);
    }
  }

  // ----- Names an archive of a tree gives to its paths -----

  /** A relative path as the walk spells it. */
  function Spelled(p: Path): string { Join(p, '/') }

  predicate Separatorless(p: Path) {
    forall s | s in p :: '\\' !in s
  }

  lemma {:induction false} JoinEnd(parts: seq<string>, sep: char)
    requires parts != [] && parts[|parts| - 1] != ""
    ensures var j := Join(parts, sep); var last := parts[|parts| - 1];
            j != "" && j[|j| - 1] == last[|last| - 1]
  {
    if |parts| > 1 {
      JoinEnd(parts[1..], sep);
    }
  }

  lemma {:induction false} SpelledAppend(a: Path, b: Path)
    requires a != [] && b != []
    ensures Spelled(a + b) == Spelled(a) + "/" + Spelled(b)
  {
    if |a| > 1 {
      assert (a + b)[1..] == a[1..] + b;
      SpelledAppend(a[1..], b);
    }
  }

  lemma SpelledIsNormal(p: Path)
    requires p != [] && Canonical(p) && Separatorless(p)
    ensures Normalised(Spelled(p)) == Spelled(p)
    ensures EntryPath(Spelled(p)) == Spelled(p) && EntryPath(Spelled(p) + "/") == Spelled(p)
  {
    var s := Spelled(p);
    forall i | 0 <= i < |s| ensures s[i] != '\\' {
      JoinSymbols(p, '/', s[i]);
    }
    assert p[0] in p && p[|p| - 1] in p;
    assert Replaced(s, '\\', '/') == s;
    assert Replaced(s + "/", '\\', '/') == s + "/";
    JoinStart(p, '/');
    JoinEnd(p, '/');
    assert s[|s| - 1] != '/';
    assert (s + "/")[..|s|] == s;
    assert TrimEnd(s + "/", IsSlash) == TrimEnd(s, IsSlash) == s;
  }

  /** A path of ordinary names comes back as itself, below any destination. */
  lemma OrdinaryNamesAreAccepted(p: Path, destination: Path, windows: bool)
    requires p != [] && Canonical(p) && Separatorless(p) && Canonical(destination)
    requires windows ==> ':' !in Spelled(p)
    ensures TargetFor(Spelled(p), Some(destination), windows) == Ok(Some(destination + p))
    ensures TargetFor(Spelled(p) + "/", Some(destination), windows) == Ok(Some(destination + p))
  {
    SpelledIsNormal(p);
    SplitOfJoin(p, '/');
    assert p[0] in p;
    JoinStart(p, '/');
    AllCount(p);
    TargetExactly(Spelled(p), destination, windows);
    TargetExactly(Spelled(p) + "/", destination, windows);
  }

  lemma {:induction false} AllCount(p: Path)
    requires Canonical(p)
    ensures Filter(Counts, p) == p
  {
    if p != [] {
      assert p[0] in p;
      AllCount(p[1..]);
      assert p == [p[0]] + p[1..];
    }
  }

  /** For a path of ordinary names the segments are the names. */
  lemma ExcludedByNameExactly(p: Path)
    requires p != [] && Canonical(p) && Separatorless(p)
    ensures Excluded(Spelled(p)) <==> (exists s | s in p :: EndsInTmp(s)) || ["org", "backup"] <= p
  {
    SpelledIsNormal(p);
    SplitOfJoin(p, '/');
    ExcludedExactly(Spelled(p));
  }
}
