/**
 * The canonical request of AWS Signature Version 4: percent-encoding, the sorted query, the canonical
 * headers, and the text they are joined into.
 */
module AwsSigV4 {
  import opened Results
  import opened Text
  import opened Sorting

  // ----- Percent-encoding -----

  /** The unreserved set of section 2.3 of RFC 3986. */
  predicate Unreserved(b: byte) {
    || 'A' as int <= b <= 'Z' as int
    || 'a' as int <= b <= 'z' as int
    || '0' as int <= b <= '9' as int
    || b == '-' as int || b == '_' as int || b == '.' as int || b == '~' as int
  }

  function Digit(n: nat): char
    requires n < 16
  {
    if n < 10 then '0' + n as char else 'A' + (n - 10) as char
  }

  function EncodedByte(b: byte, keepSlashes: bool): string {
    if Unreserved(b) || (keepSlashes && b == '/' as int) then [b as char]
    else ['%', Digit(b / 16), Digit(b % 16)]
  }

  function Encoded(value: seq<byte>, keepSlashes: bool): string {
    if value == [] then "" else EncodedByte(value[0], keepSlashes) + Encoded(value[1..], keepSlashes)
  }

  lemma {:induction false} EncodedAppend(a: seq<byte>, b: seq<byte>, keepSlashes: bool)
    ensures Encoded(a + b, keepSlashes) == Encoded(a, keepSlashes) + Encoded(b, keepSlashes)
  {
    if a == [] {
      assert a + b == b;
    } else {
      assert (a + b)[1..] == a[1..] + b;
      EncodedAppend(a[1..], b, keepSlashes);
    }
  }

  const MARKS := "-_.~"

  const DIGITS := "0123456789"

  const HEX := "0123456789ABCDEF"

  lemma DigitsRun()
    ensures |DIGITS| == 10 && forall i | 0 <= i < 10 :: DIGITS[i] as int == '0' as int + i
    ensures |HEX| == 16 && forall i | 0 <= i < 16 :: HEX[i] == Digit(i)
  {
  }

  /** A letter, a digit or one of the four marks. */
  predicate KeptAsItIs(c: char) { c in CAPITALS || c in SMALLS || c in DIGITS || c in MARKS }

  lemma UnreservedExactly(b: byte)
    ensures Unreserved(b) <==> KeptAsItIs(b as char)
  {
    AlphabetsRun();
    DigitsRun();
    var c := b as char;
    assert 'A' <= c <= 'Z' ==> CAPITALS[b - 'A' as int] == c;
    assert 'a' <= c <= 'z' ==> SMALLS[b - 'a' as int] == c;
    assert '0' <= c <= '9' ==> DIGITS[b - '0' as int] == c;
    assert MARKS == ['-', '_', '.', '~'];
  }

  /**
   * One byte: itself, or a percent sign and its two digits in capital hexadecimal; a slash is itself only in a path.
   */
  lemma EncodedByteExactly(b: byte, keepSlashes: bool)
    ensures Encoded([b], keepSlashes)
         == if KeptAsItIs(b as char) || (keepSlashes && b as char == '/') then [b as char]
            else ['%', HEX[b / 16], HEX[b % 16]]
  {
    UnreservedExactly(b);
    DigitsRun();
    assert [b][1..] == [];
    hide Unreserved, KeptAsItIs;
  }

  method Encode(value: seq<byte>, keepSlashes: bool) returns (encoded: string)
    ensures encoded == Encoded(value, keepSlashes)
  {
    encoded := "";
    for i := 0 to |value|
      invariant encoded == Encoded(value[..i], keepSlashes)
    {
      assert value[..i + 1] == value[..i] + [value[i]];
      EncodedAppend(value[..i], [value[i]], keepSlashes);
      encoded := encoded + EncodedByte(value[i], keepSlashes);
    }
    assert value[..|value|] == value;
  }

  function DigitValue(c: char): nat
    ensures DigitValue(c) < 16
  {
    if '0' <= c <= '9' then (c - '0') as nat else if 'A' <= c <= 'F' then (c - 'A') as nat + 10 else 0
  }

  /** Percent-decoding, as section 2.1 of RFC 3986 reads an escape. */
  function Decoded(text: string): seq<byte> {
    if text == "" then []
    else if text[0] == '%' && |text| >= 3 then
      [DigitValue(text[1]) * 16 + DigitValue(text[2])] + Decoded(text[3..])
    else [text[0] as int % 256] + Decoded(text[1..])
  }

  lemma {:induction false} DecodingUndoesEncoding(value: seq<byte>, keepSlashes: bool)
    ensures Decoded(Encoded(value, keepSlashes)) == value
  {
    if value != [] {
      DecodingUndoesEncoding(value[1..], keepSlashes);
      var rest := Encoded(value[1..], keepSlashes);
      var head := EncodedByte(value[0], keepSlashes);
      assert (head + rest)[|head|..] == rest;
      assert value == [value[0]] + value[1..];
      DigitRoundTrip(value[0]);
    }
  }

  lemma DigitRoundTrip(b: byte)
    ensures DigitValue(Digit(b / 16)) * 16 + DigitValue(Digit(b % 16)) == b
  {
  }

  /** What an encoded text is made of: no separator of a query or of a request can occur in it. */
  lemma {:induction false} EncodedAlphabet(value: seq<byte>, c: char)
    requires c in Encoded(value, false)
    ensures c == '%' || (c as int < 128 && Unreserved(c as int))
  {
    if c in EncodedByte(value[0], false) {
    } else {
      EncodedAlphabet(value[1..], c);
    }
  }

  // ----- The query -----

  datatype Parameter = Parameter(name: seq<byte>, value: seq<byte>)

  datatype Pair = Pair(name: string, value: string)

  function EncodedPair(p: Parameter): Pair { Pair(Encoded(p.name, false), Encoded(p.value, false)) }

  /** By name, then by value. */
  predicate PairLte(a: Pair, b: Pair) {
    Lt(a.name, b.name) || (a.name == b.name && Lte(a.value, b.value))
  }

  function Spelled(p: Pair): string { p.name + "=" + p.value }

  function CanonicalQuery(parameters: seq<Parameter>): string {
    Join(Map(Spelled, Sort(Map(EncodedPair, parameters), PairLte)), '&')
  }

  lemma PairOrder()
    ensures TotalOrder(PairLte)
  {
    forall x: Pair, y: Pair ensures PairLte(x, y) || PairLte(y, x) {
      LteTotal(x.name, y.name);
      LteTotal(x.value, y.value);
    }
    forall x: Pair, y: Pair | PairLte(x, y) && PairLte(y, x) ensures x == y {
      if x.name != y.name { LteAntisymmetric(x.name, y.name); }
      LteAntisymmetric(x.value, y.value);
    }
    forall x: Pair, y: Pair, z: Pair | PairLte(x, y) && PairLte(y, z) ensures PairLte(x, z) {
      LteTotal(y.name, y.name);
      LteTransitive(x.name, y.name, z.name);
      if x.name == z.name && x.name != y.name { LteAntisymmetric(x.name, y.name); }
      if x.name == y.name == z.name { LteTransitive(x.value, y.value, z.value); }
    }
  }

  function ParsedPair(piece: string): Parameter {
    var parts := Split(piece, '=');
    Parameter(Decoded(parts[0]), if |parts| > 1 then Decoded(parts[1]) else [])
  }

  /** Split on ampersands, then on the equals sign, then percent-decode. */
  function ParsedQuery(query: string): seq<Parameter> {
    if query == "" then [] else Map(ParsedPair, Split(query, '&'))
  }

  lemma ParsingUndoesSpelling(p: Parameter)
    ensures '&' !in Spelled(EncodedPair(p)) && ParsedPair(Spelled(EncodedPair(p))) == p
  {
    var pair := EncodedPair(p);
    forall c | c in pair.name || c in pair.value ensures c != '&' && c != '=' {
      if c in pair.name { EncodedAlphabet(p.name, c); } else { EncodedAlphabet(p.value, c); }
    }
    SplitAfter(pair.name, '=', pair.value);
    SplitWhole(pair.value, '=');
    DecodingUndoesEncoding(p.name, false);
    DecodingUndoesEncoding(p.value, false);
    assert Spelled(pair) == pair.name + ['='] + pair.value;
  }

  function Reread(p: Pair): Parameter { ParsedPair(Spelled(p)) }

  /** Every piece of the joined query is a spelled parameter. */
  lemma PiecesAreSpelled(parameters: seq<Parameter>, i: nat)
    requires i < |Sort(Map(EncodedPair, parameters), PairLte)|
    ensures var piece := Spelled(Sort(Map(EncodedPair, parameters), PairLte)[i]); '&' !in piece && piece != ""
  {
    var pairs := Map(EncodedPair, parameters);
    var sorted := Sort(pairs, PairLte);
    SortPermutes(pairs, PairLte);
    hide Sort, Map;
    assert sorted[i] in multiset(pairs);
    var k :| 0 <= k < |pairs| && pairs[k] == sorted[i];
    ParsingUndoesSpelling(parameters[k]);
  }

  lemma QueryReadsBack(parameters: seq<Parameter>)
    ensures ParsedQuery(CanonicalQuery(parameters)) == Map(Reread, Sort(Map(EncodedPair, parameters), PairLte))
  {
    var sorted := Sort(Map(EncodedPair, parameters), PairLte);
    SortPermutes(Map(EncodedPair, parameters), PairLte);
    var pieces := Map(Spelled, sorted);
    forall i | 0 <= i < |sorted| ensures '&' !in pieces[i] && pieces[i] != "" {
      PiecesAreSpelled(parameters, i);
    }
    hide Spelled, Sort;
    if parameters != [] {
      SplitOfJoin(pieces, '&');
      assert Join(pieces, '&') != "" by { if |pieces| == 1 { assert pieces[0] != ""; } }
      hide Map;
      assert Map(ParsedPair, pieces) == Map(Reread, sorted) by { MapTwice(sorted, pieces); }
    }
  }

  lemma MapTwice(sorted: seq<Pair>, pieces: seq<string>)
    requires pieces == Map(Spelled, sorted)
    ensures Map(ParsedPair, pieces) == Map(Reread, sorted)
  {
    hide Map, Spelled, ParsedPair;
  }

  lemma SpelledSplits(p: Parameter)
    ensures Split(Spelled(EncodedPair(p)), '=') == [EncodedPair(p).name, EncodedPair(p).value]
  {
    var pair := EncodedPair(p);
    forall c | c in pair.name || c in pair.value ensures c != '=' {
      if c in pair.name { EncodedAlphabet(p.name, c); } else { EncodedAlphabet(p.value, c); }
    }
    SplitAfter(pair.name, '=', pair.value);
    SplitWhole(pair.value, '=');
    assert Spelled(pair) == pair.name + ['='] + pair.value;
  }

  /** One piece of the query, split at its equals sign. */
  predicate InQueryOrder(a: string, b: string) {
    var x, y := Split(a, '='), Split(b, '=');
    |x| == 2 && |y| == 2 && Lte(x[0], y[0]) && (x[0] == y[0] ==> Lte(x[1], y[1]))
  }

  lemma QuerySplits(parameters: seq<Parameter>)
    requires parameters != []
    ensures Split(CanonicalQuery(parameters), '&') == Map(Spelled, Sort(Map(EncodedPair, parameters), PairLte))
  {
    var sorted := Sort(Map(EncodedPair, parameters), PairLte);
    SortPermutes(Map(EncodedPair, parameters), PairLte);
    var pieces := Map(Spelled, sorted);
    forall i | 0 <= i < |sorted| ensures '&' !in pieces[i] {
      PiecesAreSpelled(parameters, i);
    }
    hide Spelled, Sort, Map;
    SplitOfJoin(pieces, '&');
  }

  lemma SortedPairIs(parameters: seq<Parameter>, i: nat) returns (k: nat)
    requires i < |Sort(Map(EncodedPair, parameters), PairLte)|
    ensures k < |parameters| && Sort(Map(EncodedPair, parameters), PairLte)[i] == EncodedPair(parameters[k])
  {
    var pairs := Map(EncodedPair, parameters);
    var sorted := Sort(pairs, PairLte);
    SortPermutes(pairs, PairLte);
    hide Sort, Map, EncodedPair;
    assert sorted[i] in multiset(pairs);
    k :| 0 <= k < |pairs| && pairs[k] == sorted[i];
  }

  lemma PairsAreSorted(parameters: seq<Parameter>)
    ensures SortedBy(Sort(Map(EncodedPair, parameters), PairLte), PairLte)
  {
    PairOrder();
    SortSorts(Map(EncodedPair, parameters), PairLte);
    hide Sort, Map, SortedBy;
  }

  lemma SpelledInOrder(a: Parameter, b: Parameter)
    requires PairLte(EncodedPair(a), EncodedPair(b))
    ensures InQueryOrder(Spelled(EncodedPair(a)), Spelled(EncodedPair(b)))
  {
    SpelledSplits(a);
    SpelledSplits(b);
    hide Split, Spelled;
    LteTotal(EncodedPair(a).name, EncodedPair(a).name);
  }

  lemma SortedPairsOrdered(parameters: seq<Parameter>, i: nat, j: nat)
    requires i < j < |Sort(Map(EncodedPair, parameters), PairLte)|
    ensures var sorted := Sort(Map(EncodedPair, parameters), PairLte);
      InQueryOrder(Spelled(sorted[i]), Spelled(sorted[j]))
  {
    PairsAreSorted(parameters);
    var k := SortedPairIs(parameters, i);
    var l := SortedPairIs(parameters, j);
    hide Sort, Map, InQueryOrder, Spelled, EncodedPair;
    SpelledInOrder(parameters[k], parameters[l]);
  }

  /** In the string itself the names never descend, nor do the values under one name. */
  lemma QueryAscends(parameters: seq<Parameter>)
    ensures var pieces := Split(CanonicalQuery(parameters), '&');
      forall i, j | 0 <= i < j < |pieces| :: InQueryOrder(pieces[i], pieces[j])
  {
    if parameters != [] {
      QuerySplits(parameters);
      var sorted := Sort(Map(EncodedPair, parameters), PairLte);
      var pieces := Split(CanonicalQuery(parameters), '&');
      hide CanonicalQuery, InQueryOrder, Split;
      forall i, j | 0 <= i < j < |pieces| ensures InQueryOrder(pieces[i], pieces[j]) {
        SortedPairsOrdered(parameters, i, j);
      }
    }
  }

  /** The query string gives back exactly the parameters that were put in, however often each occurs. */
  lemma QueryIsLossless(parameters: seq<Parameter>)
    ensures multiset(ParsedQuery(CanonicalQuery(parameters))) == multiset(parameters)
  {
    var pairs := Map(EncodedPair, parameters);
    QueryReadsBack(parameters);
    SortPermutes(pairs, PairLte);
    MapPermutes(Reread, Sort(pairs, PairLte), pairs);
    forall i | 0 <= i < |parameters| ensures Reread(pairs[i]) == parameters[i] {
      ParsingUndoesSpelling(parameters[i]);
    }
    assert Map(Reread, pairs) == parameters;
  }

  /** Two parameter lists have one query string exactly when they are rearrangements of each other. */
  lemma QueryExactly(a: seq<Parameter>, b: seq<Parameter>)
    ensures CanonicalQuery(a) == CanonicalQuery(b) <==> multiset(a) == multiset(b)
  {
    QueryIsLossless(a);
    QueryIsLossless(b);
    if multiset(a) == multiset(b) {
      MapPermutes(EncodedPair, a, b);
      PairOrder();
      SortCanonical(Map(EncodedPair, a), Map(EncodedPair, b), PairLte);
    }
  }

  // ----- Header values -----

  /** char.IsWhiteSpace. */
  predicate IsWhite(c: char) {
    || '\t' <= c <= '\r' || c == ' ' || c == '\U{85}' || c == '\U{A0}' || c == '\U{1680}'
    || '\U{2000}' <= c <= '\U{200A}' || c == '\U{2028}' || c == '\U{2029}' || c == '\U{202F}'
    || c == '\U{205F}' || c == '\U{3000}'
  }

  predicate IsBlank(c: char) { c == ' ' || c == '\t' }

  function Trimmed(value: string): string { TrimEnd(TrimStart(value, IsWhite), IsWhite) }

  /** Each run of blanks as one space; `space` says that a run is already open. */
  function Squeezed(value: string, space: bool): string {
    if value == "" then ""
    else if !IsBlank(value[0]) then [value[0]] + Squeezed(value[1..], false)
    else (if space then "" else " ") + Squeezed(value[1..], true)
  }

  function Collapsed(value: string): string { Squeezed(Trimmed(value), false) }

  method AppendSymbol(into: string, symbol: char, afterSpace: bool) returns (now: string, space: bool)
    ensures space == IsBlank(symbol)
    ensures now == into + Squeezed([symbol], afterSpace)
  {
    if !IsBlank(symbol) {
      return into + [symbol], false;
    }
    now := if afterSpace then into else into + " ";
    space := true;
  }

  /** Whether a run of blanks is open after a text. */
  function OpenAfter(v: string, space: bool): bool { if v == "" then space else IsBlank(v[|v| - 1]) }

  lemma SqueezedFirst(v: string, space: bool)
    requires v != ""
    ensures Squeezed(v, space) == Squeezed([v[0]], space) + Squeezed(v[1..], IsBlank(v[0]))
    ensures OpenAfter(v, space) == OpenAfter(v[1..], IsBlank(v[0]))
  {
  }

  lemma {:induction false} SqueezedAppend(a: string, c: char, space: bool)
    ensures Squeezed(a + [c], space) == Squeezed(a, space) + Squeezed([c], OpenAfter(a, space))
  {
    if a == "" {
      assert a + [c] == [c];
    } else {
      hide Squeezed, IsBlank, OpenAfter;
      SqueezedFirst(a, space);
      SqueezedFirst(a + [c], space);
      assert (a + [c])[1..] == a[1..] + [c] && (a + [c])[0] == a[0];
      SqueezedAppend(a[1..], c, IsBlank(a[0]));
    }
  }

  method Collapse(value: string) returns (collapsed: string)
    ensures collapsed == Collapsed(value)
  {
    hide IsWhite, Trimmed;
    var trimmed := Trimmed(value);
    collapsed := "";
    var space := false;
    for i := 0 to |trimmed|
      invariant space == (i > 0 && IsBlank(trimmed[i - 1]))
      invariant collapsed == Squeezed(trimmed[..i], false)
    {
      assert trimmed[..i + 1] == trimmed[..i] + [trimmed[i]];
      SqueezedAppend(trimmed[..i], trimmed[i], false);
      collapsed, space := AppendSymbol(collapsed, trimmed[i], space);
    }
    assert trimmed[..|trimmed|] == trimmed;
  }

  /** No white space at either end, no tab, and no two spaces in a row. */
  predicate Tidy(v: string) {
    && (v != "" ==> !IsWhite(v[0]) && !IsWhite(v[|v| - 1]))
    && Spaced(v)
  }

  predicate Spaced(v: string) {
    && '\t' !in v
    && forall i | 0 <= i < |v| - 1 :: !(v[i] == ' ' && v[i + 1] == ' ')
  }

  lemma PrependStaysSpaced(c: char, rest: string)
    requires Spaced(rest) && c != '\t' && (c == ' ' && rest != "" ==> rest[0] != ' ')
    ensures Spaced([c] + rest)
  {
    var v := [c] + rest;
    forall i | 0 <= i < |v| - 1 ensures !(v[i] == ' ' && v[i + 1] == ' ') {
      assert v[i + 1] == rest[i];
      assert i > 0 ==> v[i] == rest[i - 1] && rest[i] == rest[i - 1 + 1];
    }
  }

  lemma {:induction false} SqueezedIsSpaced(v: string, space: bool)
    ensures Spaced(Squeezed(v, space))
    ensures space && Squeezed(v, space) != "" ==> Squeezed(v, space)[0] != ' '
  {
    if v != "" {
      hide Spaced;
      SqueezedIsSpaced(v[1..], IsBlank(v[0]));
      var rest := Squeezed(v[1..], IsBlank(v[0]));
      PrependStaysSpaced(if IsBlank(v[0]) then ' ' else v[0], rest);
    } else {
      assert Spaced("");
    }
  }

  lemma {:induction false} SqueezedKeepsEnds(v: string, space: bool)
    requires v != ""
    ensures !IsBlank(v[0]) ==> Squeezed(v, space) != "" && Squeezed(v, space)[0] == v[0]
    ensures !IsBlank(v[|v| - 1]) ==>
              Squeezed(v, space) != "" && Squeezed(v, space)[|Squeezed(v, space)| - 1] == v[|v| - 1]
  {
    if |v| > 1 {
      SqueezedKeepsEnds(v[1..], IsBlank(v[0]));
    }
  }

  lemma CollapsedIsTidy(value: string)
    ensures Tidy(Collapsed(value))
  {
    var a := TrimStart(value, IsWhite);
    var t := TrimEnd(a, IsWhite);
    if t != "" {
      assert t[0] == a[0];
      assert !IsWhite(t[0]) && !IsWhite(t[|t| - 1]);
    }
    SqueezedIsSpaced(t, false);
    if t != "" { SqueezedKeepsEnds(t, false); }
  }

  lemma {:induction false} SpacedIsFixed(v: string, space: bool)
    requires Spaced(v) && (space && v != "" ==> v[0] != ' ')
    ensures Squeezed(v, space) == v
  {
    if v != "" {
      assert v[0] in v && v == [v[0]] + v[1..];
      forall i | 0 <= i < |v[1..]| - 1 ensures !(v[1..][i] == ' ' && v[1..][i + 1] == ' ') {
        assert v[1..][i] == v[i + 1] && v[1..][i + 1] == v[i + 1 + 1];
      }
      SpacedIsFixed(v[1..], IsBlank(v[0]));
    }
  }

  // The words of a value

  predicate NonEmpty(word: string) { word != "" }

  /** What is between blanks. */
  function Words(v: string): seq<string> { Filter(NonEmpty, Split(Replaced(v, '\t', ' '), ' ')) }

  lemma WordsOfBlank(v: string)
    requires v != "" && IsBlank(v[0])
    ensures Words(v) == Words(v[1..])
  {
    var t := Replaced(v, '\t', ' ');
    assert t[0] == ' ' && t[1..] == Replaced(v[1..], '\t', ' ');
    var rest := Split(t[1..], ' ');
    assert Split(t, ' ') == [""] + rest;
    assert ([""] + rest)[1..] == rest;
    assert [] + Filter(NonEmpty, rest) == Filter(NonEmpty, rest);
  }

  /** The pieces of a text that starts with a symbol: the rest's, with the symbol put before the first. */
  lemma PiecesOfSymbol(v: string)
    requires v != "" && !IsBlank(v[0])
    ensures var rest := Split(Replaced(v[1..], '\t', ' '), ' ');
      && Split(Replaced(v, '\t', ' '), ' ') == [[v[0]] + rest[0]] + rest[1..]
      && (rest[0] == "" <==> v[1..] == "" || IsBlank(v[1]))
  {
    var t := Replaced(v, '\t', ' ');
    assert t[0] == v[0] && t[1..] == Replaced(v[1..], '\t', ' ');
    if v[1..] != "" {
      if IsBlank(v[1]) { BlankStartsAPiece(t[1..]); } else { SymbolStartsAPiece(t[1..]); }
    }
  }

  lemma KeepsFirst(first: string, rest: seq<string>)
    ensures Filter(NonEmpty, [first] + rest) == if first == "" then Filter(NonEmpty, rest) else [first] + Filter(NonEmpty, rest)
  {
    assert ([first] + rest)[1..] == rest;
    assert [] + Filter(NonEmpty, rest) == Filter(NonEmpty, rest);
  }

  lemma WordsOfSymbol(v: string)
    requires v != "" && !IsBlank(v[0])
    ensures if v[1..] == "" || IsBlank(v[1]) then Words(v) == [[v[0]]] + Words(v[1..])
            else Words(v[1..]) != [] && Words(v) == [[v[0]] + Words(v[1..])[0]] + Words(v[1..])[1..]
  {
    PiecesOfSymbol(v);
    hide IsBlank, Split, Filter;
    var rest := Split(Replaced(v[1..], '\t', ' '), ' ');
    KeepsFirst(rest[0], rest[1..]);
    KeepsFirst([v[0]] + rest[0], rest[1..]);
    assert [rest[0]] + rest[1..] == rest;
    if rest[0] == "" {
      assert [v[0]] + rest[0] == [v[0]];
    } else {
      assert ([rest[0]] + Filter(NonEmpty, rest[1..]))[1..] == Filter(NonEmpty, rest[1..]);
    }
  }

  lemma SymbolStartsAPiece(t: string)
    requires t != "" && t[0] != ' '
    ensures Split(t, ' ')[0] != ""
  {
  }

  lemma BlankStartsAPiece(t: string)
    requires t != "" && t[0] == ' '
    ensures Split(t, ' ')[0] == ""
  {
  }

  lemma JoinFirst(c: char, words: seq<string>, rest: seq<string>)
    requires words == [[c]] + rest || (rest != [] && words == [[c] + rest[0]] + rest[1..])
    ensures words != []
    ensures Join(words, ' ') == if words == [[c]] + rest && rest != [] then [c] + " " + Join(rest, ' ')
                                else [c] + Join(rest, ' ')
  {
    if words == [[c]] + rest {
      assert words[1..] == rest;
    } else {
      assert words[1..] == rest[1..];
      if |rest| > 1 {
        assert [c] + (rest[0] + [' '] + Join(rest[1..], ' ')) == words[0] + [' '] + Join(rest[1..], ' ');
      }
    }
  }

  lemma SqueezedStep(v: string, space: bool)
    requires v != "" && !IsBlank(v[0])
    requires v[1..] != "" ==> Words(v[1..]) != []
    requires Squeezed(v[1..], false)
          == (if v[1..] != "" && IsBlank(v[1]) then " " else "") + Join(Words(v[1..]), ' ')
    ensures Words(v) != [] && Squeezed(v, space) == Join(Words(v), ' ')
  {
    WordsOfSymbol(v);
    if v[1..] == "" { NoWords(v[1..]); }
    var words, rest := Words(v), Words(v[1..]);
    assert Squeezed(v, space) == [v[0]] + Squeezed(v[1..], false);
    hide Words, Squeezed, IsBlank;
    JoinFirst(v[0], words, rest);
    assert v[1..] != "" && IsBlank(v[1]) ==> words == [[v[0]]] + rest;
    OneWayOnly(v[0], words, rest);
    hide Join;
    assert [v[0]] + (" " + Join(rest, ' ')) == [v[0]] + " " + Join(rest, ' ');
    assert "" + Join(rest, ' ') == Join(rest, ' ');
  }

  lemma OneWayOnly(c: char, words: seq<string>, rest: seq<string>)
    ensures rest != [] && words == [[c] + rest[0]] + rest[1..] ==> words != [[c]] + rest
  {
  }

  lemma NoWords(v: string)
    requires v == ""
    ensures Words(v) == []
  {
    assert Replaced(v, '\t', ' ') == "";
    assert Split("", ' ') == [""];
    assert [""][1..] == [];
  }

  lemma {:induction false} SqueezedWords(v: string, space: bool)
    requires v == "" || !IsBlank(v[|v| - 1])
    ensures v != "" ==> Words(v) != []
    ensures Squeezed(v, space)
         == (if v != "" && IsBlank(v[0]) && !space then " " else "") + Join(Words(v), ' ')
  {
    if v == "" {
      NoWords(v);
    } else if IsBlank(v[0]) {
      WordsOfBlank(v);
      SqueezedWords(v[1..], true);
      hide Words;
    } else {
      SqueezedWords(v[1..], false);
      SqueezedStep(v, space);
      hide Words, Squeezed;
      assert "" + Join(Words(v), ' ') == Join(Words(v), ' ');
    }
  }

  /** A collapsed value is the words of the trimmed one with a space between each two. */
  lemma CollapsedExactly(value: string)
    ensures Collapsed(value) == Join(Words(Trimmed(value)), ' ')
  {
    var t := Trimmed(value);
    BlankIsWhite();
    SqueezedWords(t, false);
    TrimmedExactly(value);
    hide Trimmed, Words;
    assert "" + Join(Words(t), ' ') == Join(Words(t), ' ');
  }

  lemma BlankIsWhite()
    ensures forall c :: IsBlank(c) ==> IsWhite(c)
  {
  }

  lemma TrimBounds(value: string) returns (i: nat, j: nat)
    ensures i <= j <= |value| && Trimmed(value) == value[i..j]
    ensures forall k | 0 <= k < i || j <= k < |value| :: IsWhite(value[k])
  {
    hide IsWhite;
    var a := TrimStart(value, IsWhite);
    var t := TrimEnd(a, IsWhite);
    i := |value| - |a|;
    j := i + |t|;
    forall k | j <= k < |value| ensures IsWhite(value[k]) { assert value[k] == a[k - i]; }
  }

  /** Trimming takes white space from both ends and leaves what is between as it is. */
  lemma TrimmedExactly(value: string)
    ensures var t := Trimmed(value); t != "" ==> !IsWhite(t[0]) && !IsWhite(t[|t| - 1])
    ensures exists i, j | 0 <= i <= j <= |value| && Trimmed(value) == value[i..j] ::
              forall k | 0 <= k < i || j <= k < |value| :: IsWhite(value[k])
  {
    hide IsWhite;
    var a := TrimStart(value, IsWhite);
    var t := TrimEnd(a, IsWhite);
    if t != "" { assert t[0] == a[0]; }
    hide Trimmed;
    var i, j := TrimBounds(value);
  }

  const WHITES: string :=
    "\t\n\U{0B}\U{0C}\r \U{85}\U{A0}\U{1680}\U{2000}\U{2001}\U{2002}"
    + "\U{2003}\U{2004}\U{2005}\U{2006}\U{2007}\U{2008}\U{2009}\U{200A}\U{2028}\U{2029}\U{202F}\U{205F}\U{3000}"

  lemma WhiteExactly(c: char)
    ensures IsWhite(c) <==> c in WHITES
  {
  }

  lemma TidyIsFixed(v: string)
    requires Tidy(v)
    ensures Collapsed(v) == v
  {
    assert TrimStart(v, IsWhite) == v;
    TrimEndKeeps(v, IsWhite);
    SpacedIsFixed(v, false);
  }

  lemma {:induction false} JoinedStaysTidy(parts: seq<string>)
    requires forall p | p in parts :: Tidy(p)
    ensures Tidy(Join(parts, ','))
  {
    if |parts| > 1 {
      JoinedStaysTidy(parts[1..]);
      var a, b := parts[0], Join(parts[1..], ',');
      var v := a + [','] + b;
      assert Tidy(a);
      forall i | 0 <= i < |v| - 1 ensures !(v[i] == ' ' && v[i + 1] == ' ') {
        if i + 1 < |a| {
          assert v[i] == a[i] && v[i + 1] == a[i + 1];
        } else if i > |a| {
          var k := i - |a| - 1;
          assert v[i] == b[k] && v[i + 1] == b[k + 1];
        }
      }
    }
  }

  // ----- Header lists -----

  datatype Header = Header(name: string, value: string)

  datatype Group = Group(name: string, values: seq<string>)

  function LowerName(name: string): string { Map(Lower, name) }

  function AddTo(groups: seq<Group>, name: string, value: string): seq<Group> {
    if groups == [] then [Group(name, [value])]
    else if groups[0].name == name then [Group(name, groups[0].values + [value])] + groups[1..]
    else [groups[0]] + AddTo(groups[1..], name, value)
  }

  /** GroupBy: groups in the order their names first occur, each with its values as they came. */
  function Grouped(headers: seq<Header>): seq<Group> {
    if headers == [] then []
    else
      var last := headers[|headers| - 1];
      AddTo(Grouped(headers[..|headers| - 1]), LowerName(last.name), last.value)
  }

  function Joined(values: seq<string>): string { Join(Map(Collapsed, values), ',') }

  function OfGroup(g: Group): Header { Header(g.name, Joined(g.values)) }

  predicate ByName(a: Header, b: Header) { Lte(a.name, b.name) }

  function Canonicalised(headers: seq<Header>): seq<Header> {
    Sort(Map(OfGroup, Grouped(headers)), ByName)
  }

  function NameOf(h: Header): string { h.name }

  function Names(headers: seq<Header>): seq<string> { Map(NameOf, headers) }

  /** The values given under one lower-cased name, in order. */
  function ValuesOf(headers: seq<Header>, name: string): seq<string> {
    if headers == [] then []
    else
      var last := headers[|headers| - 1];
      ValuesOf(headers[..|headers| - 1], name) + if LowerName(last.name) == name then [last.value] else []
  }

  ghost predicate DistinctNames(groups: seq<Group>) {
    forall i, j | 0 <= i < j < |groups| :: groups[i].name != groups[j].name
  }

  /** The values a group list holds for a name. */
  function Held(groups: seq<Group>, name: string): seq<string> {
    if groups == [] then [] else if groups[0].name == name then groups[0].values else Held(groups[1..], name)
  }

  lemma {:induction false} AddToHolds(groups: seq<Group>, name: string, value: string, other: string)
    requires DistinctNames(groups) && forall g | g in groups :: g.values != []
    ensures DistinctNames(AddTo(groups, name, value))
    ensures forall g | g in AddTo(groups, name, value) :: g.values != [] && (g.name == name || g.name in GroupNames(groups))
    ensures Held(AddTo(groups, name, value), other) == Held(groups, other) + if other == name then [value] else []
  {
    if groups != [] {
      assert groups == [groups[0]] + groups[1..];
      if groups[0].name == name {
        HeldNowhere(groups[1..], name);
      } else {
        AddToHolds(groups[1..], name, value, other);
        forall n | n in GroupNames(groups[1..]) ensures n in GroupNames(groups) && n != groups[0].name {
          var g :| g in groups[1..] && g.name == n;
        }
      }
    }
  }

  ghost function GroupNames(groups: seq<Group>): set<string> {
    set g | g in groups :: g.name
  }

  lemma {:induction false} HeldNowhere(groups: seq<Group>, name: string)
    requires forall g | g in groups :: g.name != name
    ensures Held(groups, name) == []
  {
    if groups != [] {
      assert groups[0] in groups;
      HeldNowhere(groups[1..], name);
    }
  }

  lemma {:induction false} HeldSomewhere(groups: seq<Group>, g: Group)
    requires DistinctNames(groups) && g in groups
    ensures Held(groups, g.name) == g.values
  {
    if groups[0] != g {
      var k :| 0 <= k < |groups| && groups[k] == g;
      HeldSomewhere(groups[1..], g);
    }
  }

  lemma {:induction false} GroupedExactly(headers: seq<Header>, name: string)
    ensures DistinctNames(Grouped(headers)) && (forall g | g in Grouped(headers) :: g.values != [])
    ensures Held(Grouped(headers), name) == ValuesOf(headers, name)
  {
    if headers != [] {
      var front, last := headers[..|headers| - 1], headers[|headers| - 1];
      GroupedExactly(front, name);
      AddToHolds(Grouped(front), LowerName(last.name), last.value, name);
    }
  }

  lemma GroupedNames(headers: seq<Header>, name: string)
    ensures name in GroupNames(Grouped(headers)) <==> ValuesOf(headers, name) != []
  {
    GroupedExactly(headers, name);
    var groups := Grouped(headers);
    if name in GroupNames(groups) {
      var g :| g in groups && g.name == name;
      HeldSomewhere(groups, g);
    } else {
      forall g | g in groups ensures g.name != name {
        assert g.name in GroupNames(groups);
      }
      HeldNowhere(groups, name);
    }
  }

  lemma ByNameOrder()
    ensures Preorder(ByName)
  {
    forall x: Header, y: Header ensures ByName(x, y) || ByName(y, x) { LteTotal(x.name, y.name); }
    forall x: Header, y: Header, z: Header | ByName(x, y) && ByName(y, z) ensures ByName(x, z) {
      LteTransitive(x.name, y.name, z.name);
    }
  }

  lemma SortedNamesAscend(hs: seq<Header>)
    requires forall i, j | 0 <= i < j < |hs| :: hs[i].name != hs[j].name
    ensures Ascending(Names(Sort(hs, ByName)))
    ensures forall h :: h in Sort(hs, ByName) <==> h in hs
  {
    ByNameOrder();
    SortSorts(hs, ByName);
    SortPermutes(hs, ByName);
    var out := Sort(hs, ByName);
    forall h ensures h in out <==> h in hs {
      assert h in multiset(out) <==> h in multiset(hs);
    }
    forall i, j | 0 <= i < j < |out| ensures out[i].name != out[j].name {
      StaysDistinct(hs, out, i, j);
    }
  }

  lemma StaysDistinct(a: seq<Header>, b: seq<Header>, i: nat, j: nat)
    requires multiset(a) == multiset(b) && i < j < |b|
    requires forall x, y | 0 <= x < y < |a| :: a[x].name != a[y].name
    ensures b[i].name != b[j].name
  {
    MapPermutes(NameOf, a, b);
    DistinctSurvives(Names(a), Names(b), i, j);
  }

  lemma NamesMember(hs: seq<Header>, n: string)
    ensures n in Names(hs) <==> exists h | h in hs :: h.name == n
  {
    forall i | 0 <= i < |hs| ensures Names(hs)[i] == hs[i].name && hs[i] in hs {
    }
  }

  lemma GroupHeader(headers: seq<Header>, h: Header)
    requires h in Map(OfGroup, Grouped(headers))
    ensures h.value == Joined(ValuesOf(headers, h.name)) && Tidy(h.value) && ValuesOf(headers, h.name) != []
  {
    hide Grouped, Joined, Tidy, ValuesOf;
    var groups := Grouped(headers);
    var k :| 0 <= k < |groups| && OfGroup(groups[k]) == h;
    GroupedExactly(headers, h.name);
    HeldSomewhere(groups, groups[k]);
    JoinedIsTidy(groups[k].values);
  }

  lemma GroupHeaderFor(headers: seq<Header>, n: string)
    requires ValuesOf(headers, n) != []
    ensures exists h | h in Map(OfGroup, Grouped(headers)) :: h.name == n
  {
    hide Grouped, Joined, ValuesOf;
    var groups := Grouped(headers);
    GroupedNames(headers, n);
    var k :| 0 <= k < |groups| && groups[k].name == n;
    assert Map(OfGroup, groups)[k] == OfGroup(groups[k]);
  }

  /** The canonical list: each name once, strictly ascending, with its values collapsed and joined in order. */
  lemma CanonicalisedExactly(headers: seq<Header>)
    ensures Ascending(Names(Canonicalised(headers)))
    ensures forall n :: n in Names(Canonicalised(headers)) <==> ValuesOf(headers, n) != []
    ensures forall h | h in Canonicalised(headers) :: h.value == Joined(ValuesOf(headers, h.name)) && Tidy(h.value)
  {
    var hs := Map(OfGroup, Grouped(headers));
    GroupedExactly(headers, "");
    hide Joined, Grouped, Tidy, ValuesOf, Names, Held, Ascending;
    SortedNamesAscend(hs);
    forall h | h in hs
      ensures h.value == Joined(ValuesOf(headers, h.name)) && Tidy(h.value)
    {
      GroupHeader(headers, h);
    }
    forall n ensures n in Names(Canonicalised(headers)) <==> ValuesOf(headers, n) != [] {
      NamesMember(Canonicalised(headers), n);
      if h :| h in hs && h.name == n { GroupHeader(headers, h); }
      if ValuesOf(headers, n) != [] { GroupHeaderFor(headers, n); }
    }
  }

  function Worded(value: string): string { Join(Words(Trimmed(value)), ' ') }

  /**
   * The value under a name: the words of each value given for it, one space between words and one comma between
   * values.
   */
  lemma HeaderValueExactly(headers: seq<Header>, h: Header)
    requires h in Canonicalised(headers)
    ensures h.value == Join(Map(Worded, ValuesOf(headers, h.name)), ',')
  {
    CanonicalisedExactly(headers);
    var values := ValuesOf(headers, h.name);
    hide Canonicalised, ValuesOf, Words, Trimmed, Collapsed;
    forall v: string ensures Collapsed(v) == Worded(v) { CollapsedExactly(v); }
    hide Worded;
    assert Map(Worded, values) == Map(Collapsed, values);
  }

  /** Canonical names are as long as the given ones, and letter by letter their small letters. */
  lemma LowerNameExactly(name: string, i: nat)
    requires i < |name|
    ensures |LowerName(name)| == |name|
    ensures if exists k :: 0 <= k < |CAPITALS| && CAPITALS[k] == name[i]
            then exists k :: 0 <= k < |CAPITALS| && CAPITALS[k] == name[i] && LowerName(name)[i] == SMALLS[k]
            else LowerName(name)[i] == name[i]
  {
    LowerExactly(name[i]);
    assert LowerName(name)[i] == Lower(name[i]);
    hide Lower, LowerName;
  }

  lemma JoinedIsTidy(values: seq<string>)
    ensures Tidy(Joined(values))
  {
    forall p | p in Map(Collapsed, values) ensures Tidy(p) {
      var k :| 0 <= k < |values| && Map(Collapsed, values)[k] == p;
      CollapsedIsTidy(values[k]);
    }
    JoinedStaysTidy(Map(Collapsed, values));
  }

  /** A header list is settled by its names in order and the value of each name. */
  lemma SameNamesSameHeaders(a: seq<Header>, b: seq<Header>)
    requires Names(a) == Names(b)
    requires forall i | 0 <= i < |a| && i < |b| :: a[i].value == b[i].value
    ensures a == b
  {
    assert |a| == |Names(a)| == |Names(b)| == |b|;
    forall i | 0 <= i < |a| ensures a[i] == b[i] {
      assert Names(a)[i] == a[i].name && Names(b)[i] == b[i].name;
    }
  }

  ghost predicate Agree(a: seq<Header>, b: seq<Header>, name: string) {
    && (ValuesOf(a, name) == [] <==> ValuesOf(b, name) == [])
    && (ValuesOf(a, name) != [] ==> Joined(ValuesOf(a, name)) == Joined(ValuesOf(b, name)))
  }

  /** Two header lists canonicalise alike exactly when every name has the same joined value in both. */
  lemma CanonicalHeadersExactly(a: seq<Header>, b: seq<Header>)
    ensures Canonicalised(a) == Canonicalised(b) <==> forall n :: Agree(a, b, n)
  {
    CanonicalisedExactly(a);
    CanonicalisedExactly(b);
    var ca, cb := Canonicalised(a), Canonicalised(b);
    hide Canonicalised, Joined, Tidy, ValuesOf;
    if forall n :: Agree(a, b, n) {
      forall n ensures n in Names(ca) <==> n in Names(cb) {
        assert Agree(a, b, n);
      }
      AscendingUnique(Names(ca), Names(cb));
      forall i | 0 <= i < |ca| && i < |cb| ensures ca[i].value == cb[i].value {
        assert Names(ca)[i] == ca[i].name && Names(cb)[i] == cb[i].name;
        assert ca[i] in ca && cb[i] in cb && Agree(a, b, ca[i].name);
      }
      SameNamesSameHeaders(ca, cb);
    }
    if ca == cb {
      forall n ensures Agree(a, b, n) {
        if n in Names(ca) {
          var i :| 0 <= i < |ca| && Names(ca)[i] == n;
          assert ca[i] in ca;
        }
      }
    }
  }

  /** Reordering headers changes nothing so long as headers of one name keep their order. */
  lemma ReorderingNamesIsErased(a: seq<Header>, b: seq<Header>)
    requires forall n :: ValuesOf(a, n) == ValuesOf(b, n)
    ensures Canonicalised(a) == Canonicalised(b)
  {
    hide ValuesOf, Joined;
    forall n ensures Agree(a, b, n) {
      assert ValuesOf(a, n) == ValuesOf(b, n);
    }
    CanonicalHeadersExactly(a, b);
  }

  // ----- Canonicalising twice -----

  lemma {:induction false} ValuesOfDistinct(hs: seq<Header>, n: string)
    requires forall i, j | 0 <= i < j < |hs| :: hs[i].name != hs[j].name
    requires forall h | h in hs :: LowerName(h.name) == h.name
    ensures n !in Names(hs) ==> ValuesOf(hs, n) == []
    ensures forall h | h in hs && h.name == n :: ValuesOf(hs, n) == [h.value]
  {
    if hs != [] {
      var front, last := hs[..|hs| - 1], hs[|hs| - 1];
      FrontOfDistinct(hs);
      ValuesOfDistinct(front, n);
      NamesMember(front, n);
      NamesMember(hs, n);
      hide Names, LowerName;
      assert last in hs;
      if last.name == n {
        assert ValuesOf(hs, n) == ValuesOf(front, n) + [last.value];
        assert ValuesOf(front, n) == [];
      } else {
        assert ValuesOf(hs, n) == ValuesOf(front, n) + [];
        assert ValuesOf(front, n) + [] == ValuesOf(front, n);
      }
    }
  }

  lemma FrontOfDistinct(hs: seq<Header>)
    requires hs != [] && forall i, j | 0 <= i < j < |hs| :: hs[i].name != hs[j].name
    ensures forall h | h in hs[..|hs| - 1] :: h in hs && h.name != hs[|hs| - 1].name
  {
    var front := hs[..|hs| - 1];
    forall h | h in front ensures h in hs && h.name != hs[|hs| - 1].name {
      var i :| 0 <= i < |front| && front[i] == h;
    }
  }

  lemma LowerTwice(name: string)
    ensures LowerName(LowerName(name)) == LowerName(name)
  {
  }

  lemma {:induction false} NamesAreLower(headers: seq<Header>, n: string)
    requires ValuesOf(headers, n) != []
    ensures LowerName(n) == n
  {
    var last := headers[|headers| - 1];
    LowerTwice(last.name);
    if LowerName(last.name) != n {
      NamesAreLower(headers[..|headers| - 1], n);
    }
  }

  lemma OnceIsLower(headers: seq<Header>, h: Header)
    requires h in Canonicalised(headers)
    ensures LowerName(h.name) == h.name && Tidy(h.value)
  {
    hide Canonicalised, LowerName, Tidy, Ascending;
    CanonicalisedExactly(headers);
    NamesMember(Canonicalised(headers), h.name);
    NamesAreLower(headers, h.name);
  }

  lemma AscendingIsDistinct(hs: seq<Header>)
    requires Ascending(Names(hs))
    ensures forall i, j | 0 <= i < j < |hs| :: hs[i].name != hs[j].name
  {
    forall i, j | 0 <= i < j < |hs| ensures hs[i].name != hs[j].name {
      assert Lt(Names(hs)[i], Names(hs)[j]);
    }
  }

  lemma OneTidyValue(v: string)
    requires Tidy(v)
    ensures Joined([v]) == v
  {
    TidyIsFixed(v);
    hide Collapsed;
    assert Map(Collapsed, [v]) == [Collapsed(v)];
  }

  /** The canonical list is a normal form: canonicalising it again changes nothing. */
  lemma CanonicalisingTwiceIsOnce(headers: seq<Header>)
    ensures Canonicalised(Canonicalised(headers)) == Canonicalised(headers)
  {
    hide Canonicalised, Tidy, Joined, ValuesOf, LowerName;
    var once := Canonicalised(headers);
    var twice := Canonicalised(once);
    CanonicalisedExactly(headers);
    CanonicalisedExactly(once);
    AscendingIsDistinct(once);
    forall h | h in once ensures LowerName(h.name) == h.name && Tidy(h.value) {
      OnceIsLower(headers, h);
    }
    forall n ensures n in Names(once) <==> n in Names(twice) {
      ValuesOfDistinct(once, n);
      NamesMember(once, n);
    }
    AscendingUnique(Names(once), Names(twice));
    forall i | 0 <= i < |twice| && i < |once| ensures twice[i].value == once[i].value {
      assert Names(once)[i] == once[i].name && Names(twice)[i] == twice[i].name;
      assert once[i] in once && twice[i] in twice;
      ValuesOfDistinct(once, once[i].name);
      OneTidyValue(once[i].value);
    }
    hide Ascending;
    SameNamesSameHeaders(twice, once);
  }

  // ----- The canonical request -----

  datatype Parts = Parts(
    verb: string, uri: string, query: string, headers: seq<Header>, signedHeaders: string, payloadHash: string)

  function Line(h: Header): string { h.name + ":" + h.value }

  /** Every header on its own line, each line ended. */
  function Block(headers: seq<Header>): string {
    if headers == [] then "" else Line(headers[0]) + "\n" + Block(headers[1..])
  }

  function CanonicalRequest(p: Parts): string {
    Join([p.verb, p.uri, p.query, Block(p.headers), p.signedHeaders, p.payloadHash], '\n')
  }

  function ParsedLine(line: string): Option<Header> {
    var parts := Split(line, ':');
    if |parts| < 2 then None else Some(Header(parts[0], Join(parts[1..], ':')))
  }

  function ParsedLines(lines: seq<string>): Option<seq<Header>> {
    if lines == [] then Some([])
    else
      match (ParsedLine(lines[0]), ParsedLines(lines[1..]))
      case (Some(h), Some(rest)) => Some([h] + rest)
      case _ => None
  }

  /** Three lines, the header lines, an empty line, and two more. */
  function ParsedRequest(text: string): Option<Parts> {
    var lines := Split(text, '\n');
    var n := |lines|;
    if n < 6 || lines[n - 3] != "" then None
    else
      match ParsedLines(lines[3..n - 3])
      case None => None
      case Some(headers) => Some(Parts(lines[0], lines[1], lines[2], headers, lines[n - 2], lines[n - 1]))
  }

  predicate OneLine(text: string) { '\n' !in text }

  predicate CleanHeader(h: Header) { ':' !in h.name && OneLine(h.name) && OneLine(h.value) }

  predicate Clean(p: Parts) {
    && OneLine(p.verb) && OneLine(p.uri) && OneLine(p.query) && OneLine(p.signedHeaders) && OneLine(p.payloadHash)
    && forall h | h in p.headers :: CleanHeader(h)
  }

  lemma {:induction false} BlockIsLines(headers: seq<Header>, tail: seq<string>)
    requires tail != []
    ensures Join(Map(Line, headers) + [""] + tail, '\n') == Block(headers) + "\n" + Join(tail, '\n')
  {
    var all := Map(Line, headers) + [""] + tail;
    if headers == [] {
      assert all == [""] + tail;
      assert all[1..] == tail;
    } else {
      BlockIsLines(headers[1..], tail);
      assert all[1..] == Map(Line, headers[1..]) + [""] + tail;
    }
  }

  lemma ParsedLineReads(h: Header)
    requires CleanHeader(h)
    ensures ParsedLine(Line(h)) == Some(h)
  {
    assert Line(h) == h.name + [':'] + h.value;
    SplitAfter(h.name, ':', h.value);
    JoinOfSplit(h.value, ':');
    assert Split(Line(h), ':')[1..] == Split(h.value, ':');
  }

  lemma {:induction false} ParsedLinesRead(headers: seq<Header>)
    requires forall h | h in headers :: CleanHeader(h)
    ensures ParsedLines(Map(Line, headers)) == Some(headers)
  {
    if headers != [] {
      hide ParsedLine, Line, CleanHeader;
      assert headers[0] in headers;
      ParsedLineReads(headers[0]);
      ParsedLinesRead(headers[1..]);
      assert Map(Line, headers)[1..] == Map(Line, headers[1..]);
      assert headers == [headers[0]] + headers[1..];
    }
  }

  lemma RequestIsLines(p: Parts)
    ensures CanonicalRequest(p) ==
            Join([p.verb, p.uri, p.query] + Map(Line, p.headers) + [""] + [p.signedHeaders, p.payloadHash], '\n')
  {
    var tail := [p.signedHeaders, p.payloadHash];
    var rest := Map(Line, p.headers) + [""] + tail;
    BlockIsLines(p.headers, tail);
    var three := [p.verb, p.uri, p.query];
    assert three + Map(Line, p.headers) + [""] + tail == three + rest;
    JoinThree(p.verb, p.uri, p.query, rest);
    JoinThree(p.verb, p.uri, p.query, [Block(p.headers)] + tail);
    assert [p.verb, p.uri, p.query, Block(p.headers), p.signedHeaders, p.payloadHash]
        == three + ([Block(p.headers)] + tail);
    assert ([Block(p.headers)] + tail)[1..] == tail;
  }

  lemma JoinThree(a: string, b: string, c: string, rest: seq<string>)
    requires rest != []
    ensures Join([a, b, c] + rest, '\n') == a + "\n" + (b + "\n" + (c + "\n" + Join(rest, '\n')))
  {
    assert ([a, b, c] + rest)[1..] == [b, c] + rest;
    assert ([b, c] + rest)[1..] == [c] + rest;
    assert ([c] + rest)[1..] == rest;
    assert Join([c] + rest, '\n') == c + "\n" + Join(rest, '\n');
    assert Join([b, c] + rest, '\n') == b + "\n" + Join([c] + rest, '\n');
  }

  lemma RequestSplits(p: Parts)
    requires Clean(p)
    ensures Split(CanonicalRequest(p), '\n') ==
            [p.verb, p.uri, p.query] + Map(Line, p.headers) + [""] + [p.signedHeaders, p.payloadHash]
  {
    RequestIsLines(p);
    var lines := [p.verb, p.uri, p.query] + Map(Line, p.headers) + [""] + [p.signedHeaders, p.payloadHash];
    forall l | l in lines ensures '\n' !in l {
      if l in Map(Line, p.headers) {
        var k :| 0 <= k < |p.headers| && Map(Line, p.headers)[k] == l;
        assert CleanHeader(p.headers[k]);
      }
    }
    hide CanonicalRequest, Clean;
    SplitOfJoin(lines, '\n');
  }

  lemma CleanRequestReadsBack(p: Parts)
    requires Clean(p)
    ensures ParsedRequest(CanonicalRequest(p)) == Some(p)
  {
    RequestSplits(p);
    ParsedLinesRead(p.headers);
    var lines := Split(CanonicalRequest(p), '\n');
    var n := |lines|;
    hide CanonicalRequest, Clean, Map, Split, ParsedLines;
    assert lines[3..n - 3] == Map(Line, p.headers);
  }

  lemma {:induction false} ParsedLinesAreClean(lines: seq<string>)
    requires forall l | l in lines :: OneLine(l)
    ensures ParsedLines(lines).Some? ==> forall h | h in ParsedLines(lines).value :: CleanHeader(h)
  {
    if lines != [] {
      ParsedLinesAreClean(lines[1..]);
      assert lines[0] in lines;
      ParsedLineIsClean(lines[0]);
    }
  }

  lemma ParsedLineIsClean(line: string)
    requires OneLine(line)
    ensures ParsedLine(line).Some? ==> CleanHeader(ParsedLine(line).value)
  {
    var parts := Split(line, ':');
    if |parts| >= 2 {
      JoinOfSplit(line, ':');
      assert line == parts[0] + [':'] + Join(parts[1..], ':');
    }
  }

  lemma ParsedIsClean(text: string)
    ensures ParsedRequest(text).Some? ==> Clean(ParsedRequest(text).value)
  {
    var lines := Split(text, '\n');
    forall l | l in lines ensures OneLine(l) {
    }
    var n := |lines|;
    if n >= 6 {
      ParsedLinesAreClean(lines[3..n - 3]);
      assert lines[0] in lines && lines[1] in lines && lines[2] in lines;
      assert lines[n - 2] in lines && lines[n - 1] in lines;
    }
    hide Split, ParsedLines, OneLine, CleanHeader;
  }

  /** A canonical request reads back exactly when no part holds a newline and no header name a colon. */
  lemma RequestReadsBackExactly(p: Parts)
    ensures ParsedRequest(CanonicalRequest(p)) == Some(p) <==> Clean(p)
  {
    hide ParsedRequest, CanonicalRequest, Clean;
    ParsedIsClean(CanonicalRequest(p));
    if Clean(p) { CleanRequestReadsBack(p); }
  }

  // ----- What is signed -----

  datatype Request = Request(verb: string, uri: string, query: string, headers: seq<Header>, payloadHash: string)

  /** The two places that name the signed headers are filled from one list. */
  function Signed(r: Request): Parts {
    var headers := Canonicalised(r.headers);
    Parts(r.verb, r.uri, r.query, headers, Join(Names(headers), ';'), r.payloadHash)
  }

  lemma {:induction false} ValuesOfSome(headers: seq<Header>, name: string)
    ensures ValuesOf(headers, name) != [] <==> exists h | h in headers :: LowerName(h.name) == name
  {
    if headers != [] {
      hide LowerName;
      ValuesOfSome(headers[..|headers| - 1], name);
      assert headers == headers[..|headers| - 1] + [headers[|headers| - 1]];
    }
  }

  lemma LowerKeepsSemicolons(name: string)
    ensures ';' in LowerName(name) <==> ';' in name
  {
    if ';' in name {
      var i :| 0 <= i < |name| && name[i] == ';';
      assert LowerName(name)[i] == ';';
    }
  }

  /**
   * The canonical names are free of semicolons exactly when the given ones are, and there are some exactly when some
   * are given.
   */
  lemma CanonicalSemicolons(headers: seq<Header>)
    ensures Canonicalised(headers) != [] <==> headers != []
    ensures (forall n | n in Names(Canonicalised(headers)) :: ';' !in n) <==> forall h | h in headers :: ';' !in h.name
  {
    CanonicalisedExactly(headers);
    var names := Names(Canonicalised(headers));
    hide Canonicalised, LowerName, ValuesOf;
    forall h | h in headers ensures LowerName(h.name) in names && (';' in LowerName(h.name) <==> ';' in h.name) {
      ValuesOfSome(headers, LowerName(h.name));
      LowerKeepsSemicolons(h.name);
    }
    forall n | n in names ensures exists h | h in headers :: LowerName(h.name) == n {
      ValuesOfSome(headers, n);
    }
    if headers != [] { assert headers[0] in headers; }
    if Canonicalised(headers) != [] { assert names[0] in names; }
  }

  /**
   * The signed-header list reads back as the header names, in order, exactly when there are some and none has a
   * semicolon.
   */
  lemma SignedHeadersReadBackExactly(r: Request)
    requires Clean(Signed(r))
    ensures ParsedRequest(CanonicalRequest(Signed(r))).Some?
    ensures var read := ParsedRequest(CanonicalRequest(Signed(r))).value;
            Split(read.signedHeaders, ';') == Names(read.headers)
            <==> r.headers != [] && forall h | h in r.headers :: ';' !in h.name
  {
    hide Canonicalised, CanonicalRequest, ParsedRequest, Clean;
    RequestReadsBackExactly(Signed(r));
    CanonicalSemicolons(r.headers);
    var names := Names(Canonicalised(r.headers));
    if names != [] && forall n | n in names :: ';' !in n {
      SplitOfJoin(names, ';');
    }
  }

  /** The lines of what is signed, each in its place. */
  lemma RequestByLines(r: Request)
    requires Clean(Signed(r))
    ensures var lines := Split(CanonicalRequest(Signed(r)), '\n');
      var headers := Canonicalised(r.headers);
      && |lines| == |headers| + 6
      && lines[0] == r.verb && lines[1] == r.uri && lines[2] == r.query
      && (forall i | 0 <= i < |headers| :: lines[3 + i] == headers[i].name + ":" + headers[i].value)
      && lines[|lines| - 3] == ""
      && lines[|lines| - 2] == Join(Names(headers), ';')
      && lines[|lines| - 1] == r.payloadHash
  {
    hide Canonicalised, CanonicalRequest, Clean, Split;
    RequestSplits(Signed(r));
  }

  /** Equal canonical requests are the same request, up to how each header's values were spelled. */
  lemma CanonicalRequestExactly(a: Request, b: Request)
    requires Clean(Signed(a)) && Clean(Signed(b))
    ensures CanonicalRequest(Signed(a)) == CanonicalRequest(Signed(b)) <==>
            && a.verb == b.verb && a.uri == b.uri && a.query == b.query && a.payloadHash == b.payloadHash
            && forall n :: Agree(a.headers, b.headers, n)
  {
    hide Canonicalised, CanonicalRequest, ParsedRequest, Clean, Agree;
    RequestReadsBackExactly(Signed(a));
    RequestReadsBackExactly(Signed(b));
    CanonicalHeadersExactly(a.headers, b.headers);
  }

  /** A newline inside a header value is enough for two different header lists to print one block. */
  lemma ANewlineMakesBlocksCollide()
    ensures var one := [Header("a", "x\nb:y")];
            var two := [Header("a", "x"), Header("b", "y")];
            one != two && Block(one) == Block(two)
  {
    var one := [Header("a", "x\nb:y")];
    var two := [Header("a", "x"), Header("b", "y")];
    assert two[1..] == [Header("b", "y")];
    assert Block(two) == "a:x\n" + Block(two[1..]);
    assert Block(two[1..]) == "b:y\n";
    assert Block(one) == "a:x\nb:y\n";
  }
}
