/**
 * The string that Azure's SharedKey authorisation signs: a fixed number of lines, then the x-ms- headers, the
 * resource and the query, each sorted by lower-cased name and by nothing else.
 */
module AzureSharedKey {
  import opened Results
  import opened Text
  import opened Sorting
  import opened AwsSigV4

  const MS_PREFIX := "x-ms-"

  /** The headers that have a line of their own whether or not they are present, in the order of their lines. */
  const FIXED: seq<string> := [
    "content-encoding", "content-language", "content-md5", "content-type", "date", "if-modified-since", "if-match",
    "if-none-match", "if-unmodified-since", "range"]

  function Upper(c: char): char { if 'a' <= c <= 'z' then c - 'a' + 'A' else c }

  datatype SharedKeyRequest = SharedKeyRequest(
    verb: string, account: string, path: string, headers: seq<Header>, query: seq<Header>, contentLength: int)

  function Decimal(n: nat): string {
    if n < 10 then ['0' + n as char] else Decimal(n / 10) + ['0' + (n % 10) as char]
  }

  /** Zero is written as nothing, and so is anything below. */
  function LengthLine(contentLength: int): string { if contentLength <= 0 then "" else Decimal(contentLength) }

  function Lowered(h: Header): Header { Header(LowerName(h.name), h.value) }

  function LoweredTrimmed(h: Header): Header { Header(LowerName(h.name), Trimmed(h.value)) }

  predicate IsMs(h: Header) { MS_PREFIX <= h.name }

  function MsHeaders(headers: seq<Header>): seq<Header> {
    Sort(Filter(IsMs, Map(LoweredTrimmed, headers)), ByName)
  }

  function SortedQuery(query: seq<Header>): seq<Header> { Sort(Map(Lowered, query), ByName) }

  /** Every line begun by the end of the one before. */
  function Tail(query: seq<Header>): string {
    if query == [] then "" else "\n" + Line(query[0]) + Tail(query[1..])
  }

  function CanonicalResource(r: SharedKeyRequest): string { "/" + r.account + r.path + Tail(SortedQuery(r.query)) }

  /** The value of the first header of that name, or nothing. */
  function FirstOf(headers: seq<Header>, name: string): string {
    if headers == [] then "" else if LowerName(headers[0].name) == name then headers[0].value else FirstOf(headers[1..], name)
  }

  function FixedLines(r: SharedKeyRequest): (lines: seq<string>)
    ensures |lines| == 12
  {
    var of := (name: string) => FirstOf(r.headers, name);
    [Map(Upper, r.verb), of(FIXED[0]), of(FIXED[1]), LengthLine(r.contentLength)] + Map(of, FIXED[2..])
  }

  function StringToSign(r: SharedKeyRequest): string {
    Join(FixedLines(r) + [Block(MsHeaders(r.headers)) + CanonicalResource(r)], '\n')
  }

  // ----- A stable sort -----

  /** The values listed under a name, in order. */
  function Under(hs: seq<Header>, name: string): seq<string> {
    if hs == [] then [] else (if hs[0].name == name then [hs[0].value] else []) + Under(hs[1..], name)
  }

  lemma {:induction false} InsertIsStable(h: Header, hs: seq<Header>, name: string)
    ensures Under(Insert(h, hs, ByName), name) == Under([h] + hs, name)
  {
    if hs == [] || ByName(h, hs[0]) {
    } else {
      InsertIsStable(h, hs[1..], name);
      assert h.name != hs[0].name by { LteTotal(h.name, h.name); }
      var rest := Insert(h, hs[1..], ByName);
      assert ([hs[0]] + rest)[1..] == rest;
      assert ([h] + hs)[1..] == hs && ([h] + hs[1..])[1..] == hs[1..];
    }
  }

  /** Sorting leaves the values of one name in their order among themselves. */
  lemma {:induction false} SortIsStable(hs: seq<Header>, name: string)
    ensures Under(Sort(hs, ByName), name) == Under(hs, name)
  {
    if hs != [] {
      SortIsStable(hs[1..], name);
      InsertIsStable(hs[0], Sort(hs[1..], ByName), name);
      assert ([hs[0]] + Sort(hs[1..], ByName))[1..] == Sort(hs[1..], ByName);
    }
  }

  lemma {:induction false} UnderSome(hs: seq<Header>, name: string)
    ensures Under(hs, name) != [] <==> exists i :: 0 <= i < |hs| && hs[i].name == name
  {
    if hs != [] {
      UnderSome(hs[1..], name);
      if Under(hs[1..], name) != [] {
        var i :| 0 <= i < |hs[1..]| && hs[1..][i].name == name;
        assert hs[i + 1].name == name;
      }
      if i :| 0 <= i < |hs| && hs[i].name == name { assert i > 0 ==> hs[1..][i - 1].name == name; }
    }
  }

  ghost predicate SameUnder(a: seq<Header>, b: seq<Header>) { forall n :: Under(a, n) == Under(b, n) }

  /** The least name of one list is listed in the other, so not below the other's. */
  lemma LeastIsListed(a: seq<Header>, b: seq<Header>)
    requires SortedBy(b, ByName) && SameUnder(a, b) && a != []
    ensures b != [] && Lte(b[0].name, a[0].name)
  {
    UnderSome(a, a[0].name);
    UnderSome(b, a[0].name);
    assert a[0].name == a[0].name && Under(a, a[0].name) == Under(b, a[0].name);
    var i :| 0 <= i < |b| && b[i].name == a[0].name;
    LteTotal(b[0].name, b[0].name);
    assert i > 0 ==> ByName(b[0], b[i]);
    hide Under;
  }

  lemma RestsAgree(a: seq<Header>, b: seq<Header>)
    requires SameUnder(a, b) && a != [] && b != [] && a[0].name == b[0].name
    ensures a[0] == b[0] && SameUnder(a[1..], b[1..])
  {
    var m := a[0].name;
    assert Under(a, m) == [a[0].value] + Under(a[1..], m) && Under(b, m) == [b[0].value] + Under(b[1..], m);
    assert Under(a, m)[0] == Under(b, m)[0];
    forall n ensures Under(a[1..], n) == Under(b[1..], n) {
      assert Under(a, n) == Under(b, n);
      if n == m {
        assert Under(a, n)[1..] == Under(a[1..], n) && Under(b, n)[1..] == Under(b[1..], n);
      } else {
        assert [] + Under(a[1..], n) == Under(a[1..], n) && [] + Under(b[1..], n) == Under(b[1..], n);
      }
    }
  }

  lemma {:induction false} SortedByValues(a: seq<Header>, b: seq<Header>)
    requires SortedBy(a, ByName) && SortedBy(b, ByName) && SameUnder(a, b)
    ensures a == b
  {
    hide Under, ByName;
    if a != [] { LeastIsListed(a, b); }
    if b != [] { LeastIsListed(b, a); }
    if a != [] {
      LteAntisymmetric(a[0].name, b[0].name);
      RestsAgree(a, b);
      assert SortedBy(a[1..], ByName) && SortedBy(b[1..], ByName);
      hide SortedBy, SameUnder;
      SortedByValues(a[1..], b[1..]);
      assert a == [a[0]] + a[1..] && b == [b[0]] + b[1..];
    }
  }

  /** Two lists sort by name alike exactly when every name has the same values in the same order. */
  lemma StableSortExactly(a: seq<Header>, b: seq<Header>)
    ensures Sort(a, ByName) == Sort(b, ByName) <==> SameUnder(a, b)
  {
    ByNameOrder();
    SortSorts(a, ByName);
    SortSorts(b, ByName);
    forall n ensures Under(Sort(a, ByName), n) == Under(a, n) && Under(Sort(b, ByName), n) == Under(b, n) {
      SortIsStable(a, n);
      SortIsStable(b, n);
    }
    hide Under, Sort, SortedBy, ByName;
    if SameUnder(a, b) {
      forall n ensures Under(Sort(a, ByName), n) == Under(Sort(b, ByName), n) { assert Under(a, n) == Under(b, n); }
      SortedByValues(Sort(a, ByName), Sort(b, ByName));
    }
    if Sort(a, ByName) == Sort(b, ByName) {
      forall n ensures Under(a, n) == Under(b, n) { assert Under(Sort(a, ByName), n) == Under(a, n); }
    }
  }

  // ----- The string reads back -----

  /** No newline anywhere, no colon in a name, no slash in the account, and a path that begins with one. */
  predicate CleanRequest(r: SharedKeyRequest) {
    && OneLine(r.verb) && OneLine(r.account) && '/' !in r.account && OneLine(r.path) && "/" <= r.path
    && (forall h | h in r.headers :: CleanHeader(h)) && (forall q | q in r.query :: CleanHeader(q))
  }

  function Lines(r: SharedKeyRequest): seq<string> {
    FixedLines(r)
    + (Map(Line, MsHeaders(r.headers)) + (["/" + r.account + r.path] + Map(Line, SortedQuery(r.query))))
  }

  lemma {:induction false} TailIsLines(resource: string, query: seq<Header>)
    ensures Join([resource] + Map(Line, query), '\n') == resource + Tail(query)
    decreases |query|
  {
    var all := [resource] + Map(Line, query);
    assert all[1..] == Map(Line, query);
    if query != [] {
      TailIsLines(Line(query[0]), query[1..]);
      assert Map(Line, query) == [Line(query[0])] + Map(Line, query[1..]);
    }
  }

  lemma {:induction false} BlockThen(headers: seq<Header>, rest: seq<string>)
    requires rest != []
    ensures Join(Map(Line, headers) + rest, '\n') == Block(headers) + Join(rest, '\n')
  {
    var all := Map(Line, headers) + rest;
    if headers == [] {
      assert all == rest;
    } else {
      assert all[0] == Line(headers[0]) && all[1..] == Map(Line, headers[1..]) + rest;
      BlockThen(headers[1..], rest);
      hide Line;
      assert Join(all, '\n') == all[0] + ['\n'] + Join(all[1..], '\n');
    }
  }

  lemma {:induction false} JoinThen(a: seq<string>, b: seq<string>)
    requires b != []
    ensures Join(a + b, '\n') == Join(a + [Join(b, '\n')], '\n')
  {
    var x, y := a + b, a + [Join(b, '\n')];
    if a == [] {
      assert x == b && y == [Join(b, '\n')];
    } else {
      assert x[1..] == a[1..] + b && y[1..] == a[1..] + [Join(b, '\n')];
      JoinThen(a[1..], b);
    }
  }

  lemma StringIsLines(r: SharedKeyRequest)
    ensures StringToSign(r) == Join(Lines(r), '\n')
  {
    var rest := ["/" + r.account + r.path] + Map(Line, SortedQuery(r.query));
    hide FixedLines, MsHeaders, SortedQuery, Line;
    TailIsLines("/" + r.account + r.path, SortedQuery(r.query));
    BlockThen(MsHeaders(r.headers), rest);
    JoinThen(FixedLines(r), Map(Line, MsHeaders(r.headers)) + rest);
  }

  // ----- Every line is one line -----

  lemma {:induction false} FirstIsOneLine(headers: seq<Header>, name: string)
    requires forall h | h in headers :: CleanHeader(h)
    ensures OneLine(FirstOf(headers, name))
  {
    if headers != [] {
      assert headers[0] in headers;
      FirstIsOneLine(headers[1..], name);
    }
  }

  lemma {:induction false} DecimalIsDigits(n: nat)
    ensures Decimal(n) != "" && forall c | c in Decimal(n) :: '0' <= c <= '9'
  {
    if n >= 10 { DecimalIsDigits(n / 10); }
  }

  /** Reading a decimal back. */
  function Undecimal(text: string): nat {
    if text == "" then 0
    else
      var n := |text| - 1;
      Undecimal(text[..n]) * 10 + if '0' <= text[n] <= '9' then (text[n] - '0') as nat else 0
  }

  lemma {:induction false} DecimalReadsBack(n: nat)
    ensures Undecimal(Decimal(n)) == n
  {
    if n >= 10 {
      DecimalReadsBack(n / 10);
      assert Decimal(n)[..|Decimal(n)| - 1] == Decimal(n / 10);
    }
  }

  lemma LengthLineExactly(a: int, b: int)
    ensures LengthLine(a) == LengthLine(b) <==> a == b || (a <= 0 && b <= 0)
  {
    if a > 0 { DecimalReadsBack(a); DecimalIsDigits(a); }
    if b > 0 { DecimalReadsBack(b); DecimalIsDigits(b); }
  }

  lemma FixedAreOneLine(r: SharedKeyRequest)
    requires CleanRequest(r)
    ensures forall l | l in FixedLines(r) :: OneLine(l)
  {
    if r.contentLength > 0 { DecimalIsDigits(r.contentLength); }
    forall name: string ensures OneLine(FirstOf(r.headers, name)) { FirstIsOneLine(r.headers, name); }
    hide FirstOf;
    forall i | 0 <= i < 12 ensures OneLine(FixedLines(r)[i]) {
      if i == 0 {
        assert forall k | 0 <= k < |r.verb| :: r.verb[k] != '\n' ==> Upper(r.verb[k]) != '\n';
      }
    }
  }

  lemma LoweredIsClean(h: Header)
    requires CleanHeader(h)
    ensures CleanHeader(Lowered(h)) && CleanHeader(LoweredTrimmed(h))
  {
    hide IsWhite;
    forall c | c in LowerName(h.name) ensures c != ':' && c != '\n' {
      var i :| 0 <= i < |h.name| && LowerName(h.name)[i] == c;
      assert h.name[i] in h.name;
    }
    forall c | c in Trimmed(h.value) ensures c in h.value {}
  }

  lemma SortedAreClean(hs: seq<Header>)
    requires forall h | h in hs :: CleanHeader(h)
    ensures forall h | h in Sort(hs, ByName) :: CleanHeader(h)
  {
    SortPermutes(hs, ByName);
    forall h | h in Sort(hs, ByName) ensures h in hs {
      assert h in multiset(Sort(hs, ByName));
    }
  }

  lemma ListsAreClean(r: SharedKeyRequest)
    requires CleanRequest(r)
    ensures forall h | h in MsHeaders(r.headers) :: CleanHeader(h) && IsMs(h)
    ensures forall q | q in SortedQuery(r.query) :: CleanHeader(q)
  {
    hide CleanHeader, LowerName, Trimmed;
    var hs, qs := Map(LoweredTrimmed, r.headers), Map(Lowered, r.query);
    forall h | h in hs ensures CleanHeader(h) {
      var i :| 0 <= i < |r.headers| && hs[i] == h;
      LoweredIsClean(r.headers[i]);
    }
    forall q | q in qs ensures CleanHeader(q) {
      var i :| 0 <= i < |r.query| && qs[i] == q;
      LoweredIsClean(r.query[i]);
    }
    SortedAreClean(Filter(IsMs, hs));
    SortedAreClean(qs);
    SortPermutes(Filter(IsMs, hs), ByName);
    forall h | h in MsHeaders(r.headers) ensures IsMs(h) { assert h in multiset(Filter(IsMs, hs)); }
  }

  lemma {:induction false} MapIsOneLine(hs: seq<Header>)
    requires forall h | h in hs :: CleanHeader(h)
    ensures forall l | l in Map(Line, hs) :: OneLine(l)
  {
    forall l | l in Map(Line, hs) ensures OneLine(l) {
      var i :| 0 <= i < |hs| && Map(Line, hs)[i] == l;
      assert CleanHeader(hs[i]);
    }
  }

  lemma StringSplits(r: SharedKeyRequest)
    requires CleanRequest(r)
    ensures Split(StringToSign(r), '\n') == Lines(r)
  {
    StringIsLines(r);
    FixedAreOneLine(r);
    ListsAreClean(r);
    MapIsOneLine(MsHeaders(r.headers));
    MapIsOneLine(SortedQuery(r.query));
    hide StringToSign, FixedLines, MsHeaders, SortedQuery, CleanHeader;
    assert OneLine("/" + r.account + r.path);
    SplitOfJoin(Lines(r), '\n');
  }

  // ----- Which requests are signed alike -----

  lemma {:induction false} SameLinesSameHeaders(a: seq<Header>, b: seq<Header>)
    requires forall h | h in a + b :: CleanHeader(h)
    requires Map(Line, a) == Map(Line, b)
    ensures a == b
  {
    ParsedLinesRead(a) by { assert forall h | h in a :: h in a + b; }
    ParsedLinesRead(b) by { assert forall h | h in b :: h in a + b; }
  }

  lemma HeadersComeFirst(lines: seq<string>, rest: seq<string>)
    requires forall l | l in lines :: MS_PREFIX <= l
    requires rest != [] && "/" <= rest[0]
    ensures MS_PREFIX <= (lines + rest)[0] <==> lines != []
  {
    assert MS_PREFIX[0] == 'x' && "/"[0] == '/';
    assert if lines != [] then (lines + rest)[0] in lines else (lines + rest)[0] == rest[0];
  }

  /** A resource begins with a slash and no x-ms- line does, so the two kinds of line cannot be confused. */
  lemma {:induction false} ResourceIsFound(a: seq<string>, ra: seq<string>, b: seq<string>, rb: seq<string>)
    requires (forall l | l in a :: MS_PREFIX <= l) && forall l | l in b :: MS_PREFIX <= l
    requires ra != [] && rb != [] && "/" <= ra[0] && "/" <= rb[0]
    requires a + ra == b + rb
    ensures a == b && ra == rb
    decreases |a|
  {
    HeadersComeFirst(a, ra);
    HeadersComeFirst(b, rb);
    var x, y := a + ra, b + rb;
    if a == [] {
      assert x == ra && y == rb;
    } else {
      assert x[0] == a[0] && y[0] == b[0];
      assert x[1..] == a[1..] + ra && y[1..] == b[1..] + rb;
      assert (forall l | l in a[1..] :: l in a) && forall l | l in b[1..] :: l in b;
      ResourceIsFound(a[1..], ra, b[1..], rb);
      assert a == [a[0]] + a[1..] && b == [b[0]] + b[1..];
    }
  }

  lemma MsLinesBegin(hs: seq<Header>)
    requires forall h | h in hs :: IsMs(h)
    ensures forall l | l in Map(Line, hs) :: MS_PREFIX <= l
  {
    forall l | l in Map(Line, hs) ensures MS_PREFIX <= l {
      var i :| 0 <= i < |hs| && Map(Line, hs)[i] == l;
      assert IsMs(hs[i]);
    }
  }

  lemma AccountReads(r: SharedKeyRequest)
    requires '/' !in r.account && "/" <= r.path
    ensures Split(r.account + r.path, '/')[0] == r.account
    ensures r.path == (r.account + r.path)[|r.account|..]
  {
    assert r.account + r.path == r.account + ['/'] + r.path[1..];
    SplitAfter(r.account, '/', r.path[1..]);
  }

  lemma ResourceReads(a: SharedKeyRequest, b: SharedKeyRequest)
    requires '/' !in a.account && "/" <= a.path && '/' !in b.account && "/" <= b.path
    requires "/" + a.account + a.path == "/" + b.account + b.path
    ensures a.account == b.account && a.path == b.path
  {
    assert ("/" + a.account + a.path)[1..] == a.account + a.path && ("/" + b.account + b.path)[1..] == b.account + b.path;
    AccountReads(a);
    AccountReads(b);
  }

  lemma {:induction false} UnderFiltered(hs: seq<Header>, name: string)
    ensures Under(Filter(IsMs, hs), name) == if MS_PREFIX <= name then Under(hs, name) else []
  {
    if hs != [] {
      UnderFiltered(hs[1..], name);
      var h, rest := hs[0], Filter(IsMs, hs[1..]);
      assert [] + rest == rest && ([h] + rest)[1..] == rest;
      assert Filter(IsMs, hs) == if IsMs(h) then [h] + rest else rest;
      hide Filter;
      assert IsMs(h) ==> Under([h] + rest, name) == (if h.name == name then [h.value] else []) + Under(rest, name);
      assert [] + Under(rest, name) == Under(rest, name) && [] + Under(hs[1..], name) == Under(hs[1..], name);
    }
  }

  ghost predicate SameMs(a: seq<Header>, b: seq<Header>) {
    forall n | MS_PREFIX <= n :: Under(Map(LoweredTrimmed, a), n) == Under(Map(LoweredTrimmed, b), n)
  }

  ghost predicate SameQuery(a: seq<Header>, b: seq<Header>) { SameUnder(Map(Lowered, a), Map(Lowered, b)) }

  lemma MsHeadersExactly(a: seq<Header>, b: seq<Header>)
    ensures MsHeaders(a) == MsHeaders(b) <==> SameMs(a, b)
  {
    var x, y := Map(LoweredTrimmed, a), Map(LoweredTrimmed, b);
    StableSortExactly(Filter(IsMs, x), Filter(IsMs, y));
    forall n
      ensures Under(Filter(IsMs, x), n) == if MS_PREFIX <= n then Under(x, n) else []
      ensures Under(Filter(IsMs, y), n) == if MS_PREFIX <= n then Under(y, n) else []
    {
      UnderFiltered(x, n);
      UnderFiltered(y, n);
    }
    hide Under, Filter, Map, Sort;
    if SameMs(a, b) {
      forall n ensures Under(Filter(IsMs, x), n) == Under(Filter(IsMs, y), n) {
        assert MS_PREFIX <= n ==> Under(x, n) == Under(y, n);
      }
    }
    if SameUnder(Filter(IsMs, x), Filter(IsMs, y)) {
      forall n | MS_PREFIX <= n ensures Under(x, n) == Under(y, n) {
        assert Under(Filter(IsMs, x), n) == Under(Filter(IsMs, y), n);
      }
    }
  }

  predicate SameFixed(a: SharedKeyRequest, b: SharedKeyRequest) {
    && Map(Upper, a.verb) == Map(Upper, b.verb)
    && (a.contentLength == b.contentLength || (a.contentLength <= 0 && b.contentLength <= 0))
    && forall i | 0 <= i < |FIXED| :: FirstOf(a.headers, FIXED[i]) == FirstOf(b.headers, FIXED[i])
  }

  /** The fixed headers' lines leave room for the method before them and the length after the second. */
  function LineOf(i: nat): nat { if i < 2 then i + 1 else i + 2 }

  lemma FixedLineIs(r: SharedKeyRequest, i: nat)
    requires i < |FIXED|
    ensures FixedLines(r)[LineOf(i)] == FirstOf(r.headers, FIXED[i])
  {
    hide FirstOf, LengthLine;
    if i >= 2 { assert FIXED[2..][i - 2] == FIXED[i]; }
  }

  lemma FixedEnds(r: SharedKeyRequest)
    ensures FixedLines(r)[0] == Map(Upper, r.verb) && FixedLines(r)[3] == LengthLine(r.contentLength)
  {
    hide FirstOf, LengthLine;
  }

  lemma FixedLinesExactly(a: SharedKeyRequest, b: SharedKeyRequest)
    ensures FixedLines(a) == FixedLines(b) <==> SameFixed(a, b)
  {
    LengthLineExactly(a.contentLength, b.contentLength);
    FixedEnds(a);
    FixedEnds(b);
    forall i | 0 <= i < |FIXED|
      ensures FixedLines(a)[LineOf(i)] == FirstOf(a.headers, FIXED[i])
      ensures FixedLines(b)[LineOf(i)] == FirstOf(b.headers, FIXED[i])
    {
      FixedLineIs(a, i);
      FixedLineIs(b, i);
    }
    hide Map, FixedLines, FirstOf, LengthLine;
    var x, y := FixedLines(a), FixedLines(b);
    if SameFixed(a, b) {
      forall k | 0 <= k < 12 ensures x[k] == y[k] {
        if 0 < k < 3 { assert LineOf(k - 1) == k; }
        if 3 < k { assert LineOf(k - 2) == k; }
      }
    }
  }

  /**
   * Two requests have one string to sign exactly when they agree on the method in upper case, on the fixed headers, on
   * the length up to those that are written as nothing, on the account and the path, and, name by name and value by
   * value in order, on the x-ms- headers and the query.
   */
  lemma StringToSignExactly(a: SharedKeyRequest, b: SharedKeyRequest)
    requires CleanRequest(a) && CleanRequest(b)
    ensures StringToSign(a) == StringToSign(b) <==>
      && SameFixed(a, b) && a.account == b.account && a.path == b.path
      && SameMs(a.headers, b.headers) && SameQuery(a.query, b.query)
  {
    FixedLinesExactly(a, b);
    MsHeadersExactly(a.headers, b.headers);
    StableSortExactly(Map(Lowered, a.query), Map(Lowered, b.query));
    StringSplits(a);
    StringSplits(b);
    StringIsLines(a);
    StringIsLines(b);
    if Lines(a) == Lines(b) { SameLinesSameParts(a, b); }
    hide StringToSign, SameFixed, SameMs, SameUnder, FixedLines, MsHeaders, Map, Sort, CleanRequest;
  }

  lemma SameLinesSameParts(a: SharedKeyRequest, b: SharedKeyRequest)
    requires CleanRequest(a) && CleanRequest(b) && Lines(a) == Lines(b)
    ensures FixedLines(a) == FixedLines(b) && MsHeaders(a.headers) == MsHeaders(b.headers)
    ensures a.account == b.account && a.path == b.path && SortedQuery(a.query) == SortedQuery(b.query)
  {
    ListsAreClean(a);
    ListsAreClean(b);
    var (ha, hb) := (MsHeaders(a.headers), MsHeaders(b.headers));
    var (qa, qb) := (SortedQuery(a.query), SortedQuery(b.query));
    hide FixedLines, MsHeaders, SortedQuery, CleanHeader;
    var ra, rb := "/" + a.account + a.path, "/" + b.account + b.path;
    var ta, tb := [ra] + Map(Line, qa), [rb] + Map(Line, qb);
    assert FixedLines(a) == Lines(a)[..12] && FixedLines(b) == Lines(b)[..12];
    assert Map(Line, ha) + ta == Lines(a)[12..] && Map(Line, hb) + tb == Lines(b)[12..];
    MsLinesBegin(ha);
    MsLinesBegin(hb);
    assert "/" <= ra && "/" <= rb;
    ResourceIsFound(Map(Line, ha), ta, Map(Line, hb), tb);
    assert ta[0] == ra && tb[0] == rb && ta[1..] == Map(Line, qa) && tb[1..] == Map(Line, qb);
    ResourceReads(a, b);
    SameLinesSameHeaders(ha, hb);
    SameLinesSameHeaders(qa, qb);
  }

  /** Unlike the query of Signature Version 4, one that repeats a name is signed in the order its values were given. */
  lemma RepeatedNamesKeepTheirOrder(r: SharedKeyRequest, name: string, v: string, w: string)
    requires CleanRequest(r) && CleanHeader(Header(name, v)) && CleanHeader(Header(name, w)) && v != w
    ensures StringToSign(r.(query := [Header(name, v), Header(name, w)]))
         != StringToSign(r.(query := [Header(name, w), Header(name, v)]))
  {
    var a, b := [Header(name, v), Header(name, w)], [Header(name, w), Header(name, v)];
    StringToSignExactly(r.(query := a), r.(query := b));
    var low := LowerName(name);
    var x, y := Map(Lowered, a), Map(Lowered, b);
    hide StringToSign, LowerName, Map;
    assert Under(x, low)[0] == v && Under(y, low)[0] == w;
    assert SameUnder(x, y) ==> Under(x, low) == Under(y, low);
  }

  /** Each small letter becomes the capital at its place, and nothing else changes. */
  lemma UpperExactly(c: char)
    ensures if exists i :: 0 <= i < |SMALLS| && SMALLS[i] == c
            then exists i :: 0 <= i < |SMALLS| && SMALLS[i] == c && Upper(c) == CAPITALS[i]
            else Upper(c) == c
  {
    AlphabetsRun();
    if 'a' <= c <= 'z' {
      var i := c as int - 'a' as int;
      assert SMALLS[i] == c;
    }
  }

  // ----- Line by line -----

  /** The value of the first header of that name in any case, or nothing. */
  ghost predicate FirstValue(headers: seq<Header>, name: string, value: string) {
    || (value == "" && forall h | h in headers :: LowerName(h.name) != name)
    || exists i :: && 0 <= i < |headers| && LowerName(headers[i].name) == name && value == headers[i].value
                   && forall j | 0 <= j < i :: LowerName(headers[j].name) != name
  }

  lemma {:induction false} FirstOfExactly(headers: seq<Header>, name: string)
    ensures FirstValue(headers, name, FirstOf(headers, name))
  {
    hide LowerName;
    if headers != [] && LowerName(headers[0].name) != name {
      var rest := headers[1..];
      FirstOfExactly(rest, name);
      if i :| && 0 <= i < |rest| && LowerName(rest[i].name) == name && FirstOf(rest, name) == rest[i].value
              && forall j | 0 <= j < i :: LowerName(rest[j].name) != name {
        assert headers[i + 1] == rest[i];
        forall j | 0 <= j < i + 1 ensures LowerName(headers[j].name) != name {
          if j > 0 { assert headers[j] == rest[j - 1]; }
        }
      }
    }
  }

  /** A length in decimal digits without a leading zero; nothing when there is no length to speak of. */
  predicate SpellsLength(text: string, length: int) {
    if length <= 0 then text == ""
    else text != "" && text[0] != '0' && (forall c | c in text :: '0' <= c <= '9') && Undecimal(text) == length
  }

  lemma {:induction false} DecimalHasNoLeadingZero(n: nat)
    requires n > 0
    ensures Decimal(n) != "" && Decimal(n)[0] != '0'
  {
    if n >= 10 { DecimalHasNoLeadingZero(n / 10); }
  }

  lemma LengthIsSpelled(length: int)
    ensures SpellsLength(LengthLine(length), length)
  {
    if length > 0 {
      DecimalHasNoLeadingZero(length);
      DecimalIsDigits(length);
      DecimalReadsBack(length);
    }
  }

  /** The twelve lines every string begins with, each in its place. */
  lemma FixedLinesByPosition(r: SharedKeyRequest)
    requires CleanRequest(r)
    ensures var lines := Split(StringToSign(r), '\n');
      && |lines| > 12
      && lines[0] == Map(Upper, r.verb)
      && FirstValue(r.headers, "content-encoding", lines[1])
      && FirstValue(r.headers, "content-language", lines[2])
      && SpellsLength(lines[3], r.contentLength)
      && FirstValue(r.headers, "content-md5", lines[4])
      && FirstValue(r.headers, "content-type", lines[5])
      && FirstValue(r.headers, "date", lines[6])
      && FirstValue(r.headers, "if-modified-since", lines[7])
      && FirstValue(r.headers, "if-match", lines[8])
      && FirstValue(r.headers, "if-none-match", lines[9])
      && FirstValue(r.headers, "if-unmodified-since", lines[10])
      && FirstValue(r.headers, "range", lines[11])
  {
    StringSplits(r);
    FixedEnds(r);
    LengthIsSpelled(r.contentLength);
    forall i | 0 <= i < |FIXED|
      ensures FixedLines(r)[LineOf(i)] == FirstOf(r.headers, FIXED[i]) && FirstValue(r.headers, FIXED[i], FirstOf(r.headers, FIXED[i]))
    {
      FixedLineIs(r, i);
      FirstOfExactly(r.headers, FIXED[i]);
    }
    hide FixedLines, StringToSign, FirstOf, FirstValue, LengthLine, SpellsLength, Map, CleanRequest, Split;
    var lines := Lines(r);
    assert lines[..12] == FixedLines(r);
    assert forall k | 0 <= k < 12 :: lines[k] == FixedLines(r)[k];
    assert LineOf(0) == 1 && LineOf(1) == 2 && LineOf(2) == 4 && LineOf(3) == 5 && LineOf(4) == 6;
    assert LineOf(5) == 7 && LineOf(6) == 8 && LineOf(7) == 9 && LineOf(8) == 10 && LineOf(9) == 11;
  }

  lemma {:induction false} UnderAppend(a: seq<Header>, b: seq<Header>, name: string)
    ensures Under(a + b, name) == Under(a, name) + Under(b, name)
  {
    if a == [] {
      assert a + b == b;
    } else {
      assert (a + b)[1..] == a[1..] + b;
      UnderAppend(a[1..], b, name);
    }
  }

  lemma {:induction false} UnderLowered(hs: seq<Header>, name: string)
    ensures Under(Map(Lowered, hs), name) == ValuesOf(hs, name)
    ensures Under(Map(LoweredTrimmed, hs), name) == Map(Trimmed, ValuesOf(hs, name))
  {
    hide LowerName, Trimmed;
    if hs != [] {
      var front, last := hs[..|hs| - 1], hs[|hs| - 1];
      UnderLowered(front, name);
      assert hs == front + [last];
      MapAppend(Lowered, front, [last]);
      MapAppend(LoweredTrimmed, front, [last]);
      UnderAppend(Map(Lowered, front), [Lowered(last)], name);
      UnderAppend(Map(LoweredTrimmed, front), [LoweredTrimmed(last)], name);
      assert Map(Lowered, [last]) == [Lowered(last)] && Map(LoweredTrimmed, [last]) == [LoweredTrimmed(last)];
      if LowerName(last.name) == name { MapAppend(Trimmed, ValuesOf(front, name), [last.value]); }
    }
  }

  /** Lines read as headers whose names never descend. */
  ghost predicate Ascends(hs: seq<Header>) { forall i, j | 0 <= i < j < |hs| :: Lte(hs[i].name, hs[j].name) }

  lemma SortedAscends(hs: seq<Header>)
    ensures Ascends(Sort(hs, ByName))
  {
    ByNameOrder();
    SortSorts(hs, ByName);
    hide Sort;
  }

  lemma MsHeadersAre(headers: seq<Header>)
    ensures Ascends(MsHeaders(headers))
    ensures forall n :: Under(MsHeaders(headers), n) == if "x-ms-" <= n then Map(Trimmed, ValuesOf(headers, n)) else []
  {
    var hs := Map(LoweredTrimmed, headers);
    SortedAscends(Filter(IsMs, hs));
    forall n ensures Under(MsHeaders(headers), n) == if "x-ms-" <= n then Map(Trimmed, ValuesOf(headers, n)) else [] {
      SortIsStable(Filter(IsMs, hs), n);
      UnderFiltered(hs, n);
      UnderLowered(headers, n);
    }
  }

  lemma SortedQueryIs(query: seq<Header>)
    ensures Ascends(SortedQuery(query))
    ensures forall n :: Under(SortedQuery(query), n) == ValuesOf(query, n)
  {
    SortedAscends(Map(Lowered, query));
    forall n ensures Under(SortedQuery(query), n) == ValuesOf(query, n) {
      SortIsStable(Map(Lowered, query), n);
      UnderLowered(query, n);
    }
  }

  /**
   * The lines after them: the x-ms- headers by ascending lower-cased name with trimmed values, the resource, and the
   * query by ascending lower-cased name with its values as they are; values of one name stay in their order.
   */
  lemma OtherLinesByPosition(r: SharedKeyRequest) returns (k: nat, hs: seq<Header>, qs: seq<Header>)
    requires CleanRequest(r)
    ensures var lines := Split(StringToSign(r), '\n');
      && 12 + k < |lines|
      && ParsedLines(lines[12..12 + k]) == Some(hs) && Ascends(hs)
      && (forall n :: Under(hs, n) == if "x-ms-" <= n then Map(Trimmed, ValuesOf(r.headers, n)) else [])
      && lines[12 + k] == "/" + r.account + r.path
      && ParsedLines(lines[12 + k + 1..]) == Some(qs) && Ascends(qs)
      && (forall n :: Under(qs, n) == ValuesOf(r.query, n))
  {
    StringSplits(r);
    ListsAreClean(r);
    MsHeadersAre(r.headers);
    SortedQueryIs(r.query);
    k, hs, qs := |MsHeaders(r.headers)|, MsHeaders(r.headers), SortedQuery(r.query);
    ParsedLinesRead(hs);
    ParsedLinesRead(qs);
    hide StringToSign, FixedLines, MsHeaders, SortedQuery, CleanHeader, ParsedLines, Under, Ascends, ValuesOf, CleanRequest, Split;
    var lines := Lines(r);
    assert lines[12..12 + k] == Map(Line, hs);
    assert lines[12 + k + 1..] == Map(Line, qs);
  }

  // ----- Why the parts must be clean -----

  /** A slash in the account moves the border between account and path. */
  lemma ASlashInTheAccountCollides(r: SharedKeyRequest)
    ensures StringToSign(r.(account := "a/b", path := "/c")) == StringToSign(r.(account := "a", path := "/b/c"))
  {
    var x, y := r.(account := "a/b", path := "/c"), r.(account := "a", path := "/b/c");
    assert "/" + "a/b" + "/c" == "/" + "a" + "/b/c";
    assert FixedLines(x) == FixedLines(y) by { SameFixedLines(x, y); }
    hide FixedLines, MsHeaders, SortedQuery, Tail;
  }

  /** A colon in a query name moves the border between name and value. */
  lemma AColonInANameCollides(r: SharedKeyRequest)
    ensures StringToSign(r.(query := [Header("a:b", "c")])) == StringToSign(r.(query := [Header("a", "b:c")]))
  {
    var x, y := [Header("a:b", "c")], [Header("a", "b:c")];
    OneParameter("a:b", "c");
    OneParameter("a", "b:c");
    assert LowerName("a:b") == "a:b" && LowerName("a") == "a" by { LowerIsLower("a:b"); LowerIsLower("a"); }
    assert "a:b" + ":" + "c" == "a" + ":" + "b:c";
    assert FixedLines(r.(query := x)) == FixedLines(r.(query := y)) by { SameFixedLines(r.(query := x), r.(query := y)); }
    hide FixedLines, MsHeaders, SortedQuery, LowerName;
  }

  /** A newline in a query value makes one parameter print like two. */
  lemma ANewlineInAValueCollides(r: SharedKeyRequest)
    ensures StringToSign(r.(query := [Header("a", "x\nb:y")]))
         == StringToSign(r.(query := [Header("a", "x"), Header("b", "y")]))
  {
    var x, y := [Header("a", "x\nb:y")], [Header("a", "x"), Header("b", "y")];
    OneParameter("a", "x\nb:y");
    TwoParameters();
    assert LowerName("a") == "a" by { LowerIsLower("a"); }
    assert FixedLines(r.(query := x)) == FixedLines(r.(query := y)) by { SameFixedLines(r.(query := x), r.(query := y)); }
    hide FixedLines, MsHeaders, SortedQuery, LowerName;
  }

  lemma SameFixedLines(a: SharedKeyRequest, b: SharedKeyRequest)
    requires a.verb == b.verb && a.headers == b.headers && a.contentLength == b.contentLength
    ensures FixedLines(a) == FixedLines(b)
  {
    FixedLinesExactly(a, b);
    hide FixedLines, FirstOf;
  }

  lemma LowerIsLower(name: string)
    requires forall c | c in name :: !('A' <= c <= 'Z')
    ensures LowerName(name) == name
  {
    assert forall i | 0 <= i < |name| :: name[i] in name;
  }

  lemma OneParameter(name: string, value: string)
    ensures Tail(SortedQuery([Header(name, value)])) == "\n" + (LowerName(name) + ":" + value)
  {
    var h := Header(LowerName(name), value);
    hide LowerName;
    assert Map(Lowered, [Header(name, value)]) == [h];
    assert Sort([h], ByName) == [h];
    assert Tail([h]) == "\n" + Line(h) + Tail([]);
  }

  lemma TwoParameters()
    ensures Tail(SortedQuery([Header("a", "x"), Header("b", "y")])) == "\n" + ("a" + ":" + "x\nb:y")
  {
    var a, b := Header("a", "x"), Header("b", "y");
    LowerIsLower("a");
    LowerIsLower("b");
    hide LowerName;
    assert [a, b][1..] == [b];
    assert Map(Lowered, [a, b]) == [a, b];
    assert Sort([b], ByName) == [b] && ByName(a, b) && Sort([a, b], ByName) == [a] + [b] == [a, b];
    assert Tail([b]) == "\n" + Line(b) + Tail([]);
    assert Tail([a, b]) == "\n" + Line(a) + Tail([b]);
  }
}
