/**
 * The label a caller is shown by: one line of words, capped by code point, and the record of five such fields that
 * crosses the bridge. A text is its code points; which of them count as a space is a parameter that holds of the
 * space itself.
 */
module CallerIdentity {
  import opened Results
  import opened Text

  type Rune = nat

  const SPACE: Rune := 0x20

  const MAX_FIELD_CHARS := 80

  /** White space, controls, formats and the audit separator. */
  type SpaceLike = p: Rune -> bool | p(SPACE) witness r => r == SPACE

  function Spaced(spaceLike: SpaceLike, value: seq<Rune>): seq<Rune> {
    Map(r => if spaceLike(r) then SPACE else r, value)
  }

  predicate NonEmpty(word: seq<Rune>) { word != [] }

  function Words(text: seq<Rune>): seq<seq<Rune>> { Filter(NonEmpty, Split(text, SPACE)) }

  function Joined(spaceLike: SpaceLike, value: seq<Rune>): seq<Rune> { Join(Words(Spaced(spaceLike, value)), SPACE) }

  function CapRunes(text: seq<Rune>, max: nat): seq<Rune> { if |text| <= max then text else text[..max] }

  function Clean(spaceLike: SpaceLike, value: seq<Rune>): seq<Rune> {
    if value == [] then [] else CapRunes(Joined(spaceLike, value), MAX_FIELD_CHARS)
  }

  // ----- The shape of a label -----

  /** Words with one space between them, and nothing else that is like a space. */
  predicate Line(spaceLike: SpaceLike, text: seq<Rune>) {
    && (forall i | 0 <= i < |text| :: spaceLike(text[i]) ==> text[i] == SPACE)
    && (forall i | 0 < i < |text| :: !(text[i - 1] == SPACE && text[i] == SPACE))
    && (text != [] ==> text[0] != SPACE)
  }

  predicate EndsInSpace(text: seq<Rune>) { text != [] && text[|text| - 1] == SPACE }

  function LessLastSpace(text: seq<Rune>): seq<Rune> { if EndsInSpace(text) then text[..|text| - 1] else text }

  predicate Word(spaceLike: SpaceLike, w: seq<Rune>) { w != [] && forall r | r in w :: !spaceLike(r) }

  lemma {:induction false} JoinedWordsAreALine(spaceLike: SpaceLike, words: seq<seq<Rune>>)
    requires forall w | w in words :: Word(spaceLike, w)
    ensures Line(spaceLike, Join(words, SPACE)) && !EndsInSpace(Join(words, SPACE))
  {
    if |words| == 1 {
      assert words[0] in words;
    } else if |words| > 1 {
      assert words[0] in words;
      var rest := Join(words[1..], SPACE);
      JoinedWordsAreALine(spaceLike, words[1..]);
      RestIsThere(words[1..]);
      assert rest != [];
    }
  }

  lemma RestIsThere(words: seq<seq<Rune>>)
    requires words != [] && forall w | w in words :: w != []
    ensures Join(words, SPACE) != []
  {
    assert words[0] in words;
  }

  lemma SpacedHasOneSpace(spaceLike: SpaceLike, value: seq<Rune>)
    ensures forall w | w in Words(Spaced(spaceLike, value)) :: Word(spaceLike, w)
  {
    var text := Spaced(spaceLike, value);
    forall w | w in Words(text) ensures Word(spaceLike, w) {
      forall r | r in w ensures !spaceLike(r) {
        JoinOfSplit(text, SPACE);
        PieceSymbols(Split(text, SPACE), w, r);
      }
    }
  }

  lemma {:induction false} PieceSymbols(parts: seq<seq<Rune>>, part: seq<Rune>, r: Rune)
    requires part in parts && r in part
    ensures r in Join(parts, SPACE)
  {
    if |parts| > 1 && part != parts[0] { PieceSymbols(parts[1..], part, r); }
  }

  lemma JoinedIsALine(spaceLike: SpaceLike, value: seq<Rune>)
    ensures Line(spaceLike, Joined(spaceLike, value)) && !EndsInSpace(Joined(spaceLike, value))
  {
    SpacedHasOneSpace(spaceLike, value);
    hide Words, Spaced;
    JoinedWordsAreALine(spaceLike, Words(Spaced(spaceLike, value)));
  }

  /** Whatever comes in, the label is one line of at most eighty code points. */
  lemma CleanIsALine(spaceLike: SpaceLike, value: seq<Rune>)
    ensures Line(spaceLike, Clean(spaceLike, value)) && |Clean(spaceLike, value)| <= MAX_FIELD_CHARS
  {
    JoinedIsALine(spaceLike, value);
    hide Joined;
  }

  // ----- Cleaning what is clean -----

  lemma {:induction false} PiecesAreWords(text: seq<Rune>)
    requires forall i | 0 < i < |text| :: !(text[i - 1] == SPACE && text[i] == SPACE)
    requires !EndsInSpace(text)
    ensures var parts := Split(text, SPACE);
      (parts[0] == [] <==> text == [] || text[0] == SPACE) && forall i | 0 < i < |parts| :: parts[i] != []
  {
    if text != [] {
      var rest := text[1..];
      assert forall i | 0 < i < |rest| :: rest[i] == text[i + 1] && rest[i - 1] == text[i];
      PiecesAreWords(rest);
      if text[0] == SPACE {
        assert rest != [] && rest[0] != SPACE;
      }
    }
  }

  lemma {:induction false} FilterKeepsAll<T>(keep: T -> bool, s: seq<T>)
    requires forall x | x in s :: keep(x)
    ensures Filter(keep, s) == s
  {
    if s != [] { FilterKeepsAll(keep, s[1..]); }
  }

  lemma SpacedIsTheSame(spaceLike: SpaceLike, text: seq<Rune>)
    requires Line(spaceLike, text)
    ensures Spaced(spaceLike, text) == text
  {
  }

  lemma WordsOfALine(spaceLike: SpaceLike, text: seq<Rune>)
    requires Line(spaceLike, text) && text != [] && !EndsInSpace(text)
    ensures Words(text) == Split(text, SPACE)
  {
    PiecesAreWords(text);
    FilterKeepsAll(NonEmpty, Split(text, SPACE));
  }

  lemma JoinedIsTheSame(spaceLike: SpaceLike, text: seq<Rune>)
    requires Line(spaceLike, text) && !EndsInSpace(text)
    ensures Joined(spaceLike, text) == text
  {
    SpacedIsTheSame(spaceLike, text);
    if text != [] {
      WordsOfALine(spaceLike, text);
      JoinOfSplit(text, SPACE);
    }
  }

  lemma JoinedDropsALastSpace(spaceLike: SpaceLike, text: seq<Rune>)
    requires Line(spaceLike, text)
    ensures Joined(spaceLike, text) == LessLastSpace(text)
  {
    if EndsInSpace(text) {
      var bare := text[..|text| - 1];
      assert text == bare + [SPACE];
      assert Line(spaceLike, bare) && !EndsInSpace(bare);
      SpacedIsTheSame(spaceLike, text);
      SpacedIsTheSame(spaceLike, bare);
      SplitOfMore(bare);
      FilterAppend(NonEmpty, Split(bare, SPACE), [[]]);
      assert Words(text) == Words(bare) by { hide Split; }
      JoinedIsTheSame(spaceLike, bare);
    } else {
      JoinedIsTheSame(spaceLike, text);
    }
  }

  lemma {:induction false} SplitOfMore(text: seq<Rune>)
    ensures Split(text + [SPACE], SPACE) == Split(text, SPACE) + [[]]
  {
    if text == [] {
      assert text + [SPACE] == [SPACE];
      assert [SPACE][1..] == [];
    } else {
      assert (text + [SPACE])[1..] == text[1..] + [SPACE];
      SplitOfMore(text[1..]);
    }
  }

  /** Cleaning a clean label takes off one trailing space and nothing else, and there is nothing left to take after. */
  lemma CleaningTwice(spaceLike: SpaceLike, value: seq<Rune>)
    ensures var once := Clean(spaceLike, value);
      var twice := Clean(spaceLike, once);
      twice == LessLastSpace(once) && Clean(spaceLike, twice) == twice
  {
    var once := Clean(spaceLike, value);
    CleanIsALine(spaceLike, value);
    JoinedDropsALastSpace(spaceLike, once);
    var twice := LessLastSpace(once);
    assert Line(spaceLike, twice) && !EndsInSpace(twice);
    JoinedDropsALastSpace(spaceLike, twice);
    hide Joined;
  }

  /** A text is left alone exactly when it is a short enough line that does not end in a space. */
  lemma FixedExactly(spaceLike: SpaceLike, text: seq<Rune>)
    ensures Clean(spaceLike, text) == text
      <==> Line(spaceLike, text) && |text| <= MAX_FIELD_CHARS && !EndsInSpace(text)
  {
    if Clean(spaceLike, text) == text {
      CleanIsALine(spaceLike, text);
      JoinedDropsALastSpace(spaceLike, text);
    }
    if Line(spaceLike, text) { JoinedDropsALastSpace(spaceLike, text); }
    hide Joined;
  }

  /** The label keeps a trailing space exactly when the cap cuts between two words. */
  lemma EndsInSpaceExactly(spaceLike: SpaceLike, value: seq<Rune>)
    ensures var all := Joined(spaceLike, value);
      EndsInSpace(Clean(spaceLike, value)) <==> |all| > MAX_FIELD_CHARS && all[MAX_FIELD_CHARS - 1] == SPACE
  {
    JoinedIsALine(spaceLike, value);
    if value == [] { assert Joined(spaceLike, value) == []; }
    hide Joined;
  }

  /** A word of seventy-nine and another are cut after the space between them. */
  lemma ALabelMayEndInASpace(spaceLike: SpaceLike, letter: Rune)
    requires !spaceLike(letter)
    ensures var value := seq(79, _ => letter) + [SPACE, letter];
      Clean(spaceLike, value) == seq(79, _ => letter) + [SPACE]
      && Clean(spaceLike, Clean(spaceLike, value)) == seq(79, _ => letter)
  {
    var word := seq(79, _ => letter);
    var value := word + [SPACE, letter];
    JoinedIsTheSame(spaceLike, value);
    assert value[..80] == word + [SPACE];
    CleaningTwice(spaceLike, value);
    hide Joined;
  }

  // ----- The words of a label -----

  /** How many symbols that are not like a space a text begins with. */
  function RunLength(spaceLike: SpaceLike, value: seq<Rune>): (n: nat)
    ensures n <= |value|
    ensures forall i | 0 <= i < n :: !spaceLike(value[i])
    ensures n < |value| ==> spaceLike(value[n])
  {
    if value == [] || spaceLike(value[0]) then 0 else 1 + RunLength(spaceLike, value[1..])
  }

  /** The longest runs of symbols that are not like a space. */
  function Runs(spaceLike: SpaceLike, value: seq<Rune>): seq<seq<Rune>>
    decreases |value|
  {
    if value == [] then []
    else if spaceLike(value[0]) then Runs(spaceLike, value[1..])
    else
      var n := RunLength(spaceLike, value);
      [value[..n]] + Runs(spaceLike, value[n..])
  }

  lemma SpacedParts(spaceLike: SpaceLike, a: seq<Rune>, b: seq<Rune>)
    ensures Spaced(spaceLike, a + b) == Spaced(spaceLike, a) + Spaced(spaceLike, b)
  {
    MapAppend(r => if spaceLike(r) then SPACE else r, a, b);
  }

  lemma WordIsSpaced(spaceLike: SpaceLike, word: seq<Rune>)
    requires forall r | r in word :: !spaceLike(r)
    ensures Spaced(spaceLike, word) == word && SPACE !in word
  {
    hide Map;
    forall i | 0 <= i < |word| ensures Spaced(spaceLike, word)[i] == word[i] { assert word[i] in word; }
  }

  lemma {:induction false} WordsAreRuns(spaceLike: SpaceLike, value: seq<Rune>)
    ensures Words(Spaced(spaceLike, value)) == Runs(spaceLike, value)
    decreases |value|
  {
    hide Spaced;
    if value == [] {
      NoWordsInNothing(spaceLike);
    } else if spaceLike(value[0]) {
      ALeadingSpaceIsNoWord(spaceLike, value);
      WordsAreRuns(spaceLike, value[1..]);
    } else {
      var n := RunLength(spaceLike, value);
      ALeadingWord(spaceLike, value, n);
      WordsAreRuns(spaceLike, value[n..]);
    }
  }

  lemma NoWordsInNothing(spaceLike: SpaceLike)
    ensures Words(Spaced(spaceLike, [])) == []
  {
    assert Split<Rune>([], SPACE) == [[]];
  }

  lemma KeepsFirst(first: seq<Rune>, rest: seq<seq<Rune>>)
    ensures Filter(NonEmpty, [first] + rest) == if first == [] then Filter(NonEmpty, rest) else [first] + Filter(NonEmpty, rest)
  {
    assert ([first] + rest)[1..] == rest;
    assert [] + Filter(NonEmpty, rest) == Filter(NonEmpty, rest);
  }

  lemma ALeadingSpaceIsNoWord(spaceLike: SpaceLike, value: seq<Rune>)
    requires value != [] && spaceLike(value[0])
    ensures Words(Spaced(spaceLike, value)) == Words(Spaced(spaceLike, value[1..]))
  {
    var t, rest := Spaced(spaceLike, value), Spaced(spaceLike, value[1..]);
    assert t[0] == SPACE && t[1..] == rest;
    hide Spaced, Filter;
    KeepsFirst([], Split(rest, SPACE));
  }

  lemma ALeadingWord(spaceLike: SpaceLike, value: seq<Rune>, n: nat)
    requires 0 < n <= |value| && (forall i | 0 <= i < n :: !spaceLike(value[i]))
    requires n < |value| ==> spaceLike(value[n])
    ensures Words(Spaced(spaceLike, value)) == [value[..n]] + Words(Spaced(spaceLike, value[n..]))
  {
    var word, rest := value[..n], value[n..];
    assert value == word + rest;
    SpacedParts(spaceLike, word, rest);
    WordIsSpaced(spaceLike, word);
    if rest == [] {
      NoWordsInNothing(spaceLike);
      assert Spaced(spaceLike, value) == word;
      SplitWhole(word, SPACE);
      hide Spaced, Split, Filter;
      KeepsFirst(word, []);
      assert [word] + [] == [word];
    } else {
      ALeadingSpaceIsNoWord(spaceLike, rest);
      var more := Spaced(spaceLike, rest[1..]);
      assert Spaced(spaceLike, rest) == [SPACE] + more;
      SplitAfter(word, SPACE, more);
      assert Spaced(spaceLike, value) == word + [SPACE] + more;
      hide Spaced, Split, Filter;
      KeepsFirst(word, Split(more, SPACE));
    }
  }

  /** The label is the text's words, in order, with one space between each two, cut after eighty code points. */
  lemma CleanExactly(spaceLike: SpaceLike, value: seq<Rune>)
    ensures var all := Join(Runs(spaceLike, value), 0x20);
      Clean(spaceLike, value) == if |all| <= 80 then all else all[..80]
  {
    WordsAreRuns(spaceLike, value);
    hide Words, Spaced;
    if value == [] { assert Runs(spaceLike, value) == []; }
  }

  // ----- Nothing but spaces is lost before the cap -----

  function Letters(spaceLike: SpaceLike, text: seq<Rune>): seq<Rune> { Filter(r => !spaceLike(r), text) }

  lemma {:induction false} LettersOfSpaced(spaceLike: SpaceLike, value: seq<Rune>)
    ensures Letters(spaceLike, Spaced(spaceLike, value)) == Letters(spaceLike, value)
  {
    if value != [] {
      LettersOfSpaced(spaceLike, value[1..]);
      assert Spaced(spaceLike, value)[1..] == Spaced(spaceLike, value[1..]);
    }
  }

  lemma {:induction false} LettersOfWords(spaceLike: SpaceLike, parts: seq<seq<Rune>>)
    ensures Letters(spaceLike, Join(Filter(NonEmpty, parts), SPACE)) == Letters(spaceLike, Join(parts, SPACE))
  {
    if parts != [] {
      var rest := Filter(NonEmpty, parts[1..]);
      LettersOfWords(spaceLike, parts[1..]);
      LettersOfJoin(spaceLike, parts);
      assert Filter(NonEmpty, parts) == (if parts[0] == [] then [] else [parts[0]]) + rest;
      hide Join;
      if parts[0] == [] {
        assert Letters(spaceLike, parts[0]) == [];
        assert Filter(NonEmpty, parts) == rest;
      } else {
        LettersOfJoin(spaceLike, Filter(NonEmpty, parts));
        assert Filter(NonEmpty, parts)[1..] == rest;
      }
    }
  }

  lemma LettersOfJoin(spaceLike: SpaceLike, parts: seq<seq<Rune>>)
    requires parts != []
    ensures Letters(spaceLike, Join(parts, SPACE))
         == Letters(spaceLike, parts[0]) + Letters(spaceLike, Join(parts[1..], SPACE))
  {
    if |parts| > 1 {
      var rest := Join(parts[1..], SPACE);
      FilterAppend(r => !spaceLike(r), parts[0] + [SPACE], rest);
      FilterAppend(r => !spaceLike(r), parts[0], [SPACE]);
    }
  }

  /** The label holds the text's own symbols in their order: all of them, or those the cap leaves. */
  lemma CleanKeepsTheLetters(spaceLike: SpaceLike, value: seq<Rune>)
    ensures Letters(spaceLike, Clean(spaceLike, value)) <= Letters(spaceLike, value)
    ensures |Joined(spaceLike, value)| <= MAX_FIELD_CHARS ==>
      Letters(spaceLike, Clean(spaceLike, value)) == Letters(spaceLike, value)
  {
    var text, all := Spaced(spaceLike, value), Joined(spaceLike, value);
    LettersOfSpaced(spaceLike, value);
    LettersOfWords(spaceLike, Split(text, SPACE));
    JoinOfSplit(text, SPACE);
    assert Letters(spaceLike, all) == Letters(spaceLike, value);
    hide Joined, Filter;
    if |all| > MAX_FIELD_CHARS {
      assert all == all[..MAX_FIELD_CHARS] + all[MAX_FIELD_CHARS..];
      FilterAppend(r => !spaceLike(r), all[..MAX_FIELD_CHARS], all[MAX_FIELD_CHARS..]);
    }
  }

  // ----- The record -----

  datatype CallerRecord = CallerRecord(
    agent: seq<Rune>, session: seq<Rune>, sessionName: seq<Rune>, cwd: seq<Rune>, tabTitle: seq<Rune>)

  const EMPTY := CallerRecord([], [], [], [], [])

  function Each(f: seq<Rune> -> seq<Rune>, r: CallerRecord): CallerRecord {
    CallerRecord(f(r.agent), f(r.session), f(r.sessionName), f(r.cwd), f(r.tabTitle))
  }

  function Cleaned(spaceLike: SpaceLike, r: CallerRecord): CallerRecord { Each(text => Clean(spaceLike, text), r) }

  function Fields(r: CallerRecord): seq<seq<Rune>> { [r.agent, r.session, r.sessionName, r.cwd, r.tabTitle] }

  /** What carries a record as one argument: its writer, and its reader, which may refuse or read no record. */
  datatype Wire = Wire(write: CallerRecord -> string, read: string -> Option<CallerRecord>)

  ghost predicate Lossless(w: Wire) { forall r :: w.write(r) != "" && w.read(w.write(r)) == Some(r) }

  function Decode(spaceLike: SpaceLike, w: Wire, encoded: string): CallerRecord {
    if encoded == "" then EMPTY
    else match w.read(encoded)
         case None => EMPTY
         case Some(r) => Cleaned(spaceLike, r)
  }

  /**
   * Whatever arrives on the command line, every field of what is read is a label, and of what cannot be read is empty.
   */
  lemma DecodedIsClean(spaceLike: SpaceLike, w: Wire, encoded: string)
    ensures forall f | f in Fields(Decode(spaceLike, w, encoded)) :: Line(spaceLike, f) && |f| <= MAX_FIELD_CHARS
    ensures encoded == "" || w.read(encoded) == None ==> forall f | f in Fields(Decode(spaceLike, w, encoded)) :: f == []
  {
    var d := Decode(spaceLike, w, encoded);
    if encoded != "" && w.read(encoded).Some? {
      var r := w.read(encoded).value;
      CleanIsALine(spaceLike, r.agent);
      CleanIsALine(spaceLike, r.session);
      CleanIsALine(spaceLike, r.sessionName);
      CleanIsALine(spaceLike, r.cwd);
      CleanIsALine(spaceLike, r.tabTitle);
      hide Clean, Line;
      assert Fields(d) == [Clean(spaceLike, r.agent), Clean(spaceLike, r.session), Clean(spaceLike, r.sessionName),
                           Clean(spaceLike, r.cwd), Clean(spaceLike, r.tabTitle)];
    } else {
      assert Fields(d) == [[], [], [], [], []];
    }
  }

  /**
   * Crossing the bridge takes from a cleaned record its fields' trailing spaces and nothing else, so it is exact just
   * when no field has one; a second crossing changes nothing.
   */
  lemma BridgeRoundTrip(spaceLike: SpaceLike, w: Wire, r: CallerRecord)
    requires Lossless(w)
    ensures var sent := Cleaned(spaceLike, r);
      var got := Decode(spaceLike, w, w.write(sent));
      && got == Each(LessLastSpace, sent)
      && (got == sent <==> forall f | f in Fields(sent) :: !EndsInSpace(f))
      && Decode(spaceLike, w, w.write(got)) == got
  {
    var sent := Cleaned(spaceLike, r);
    var got := Each(LessLastSpace, sent);
    FieldCrosses(spaceLike, r.agent);
    FieldCrosses(spaceLike, r.session);
    FieldCrosses(spaceLike, r.sessionName);
    FieldCrosses(spaceLike, r.cwd);
    FieldCrosses(spaceLike, r.tabTitle);
    hide Clean, LessLastSpace, EndsInSpace, Line;
    assert w.write(sent) != "" && w.read(w.write(sent)) == Some(sent);
    assert w.write(got) != "" && w.read(w.write(got)) == Some(got);
    assert Cleaned(spaceLike, sent) == got && Cleaned(spaceLike, got) == got;
    assert Fields(sent)[0] == sent.agent && Fields(sent)[1] == sent.session && Fields(sent)[2] == sent.sessionName
        && Fields(sent)[3] == sent.cwd && Fields(sent)[4] == sent.tabTitle;
  }

  lemma FieldCrosses(spaceLike: SpaceLike, text: seq<Rune>)
    ensures var sent := Clean(spaceLike, text);
      && Clean(spaceLike, sent) == LessLastSpace(sent)
      && Clean(spaceLike, LessLastSpace(sent)) == LessLastSpace(sent)
      && (LessLastSpace(sent) == sent <==> !EndsInSpace(sent))
  {
    CleaningTwice(spaceLike, text);
    hide Clean;
  }
}
