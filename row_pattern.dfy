/** The row tokenizer of src/maps/methane-view.ts:16,
      row.match(/(".*?"|[^",]+)(?=\s*,|\s*$)/g)
    written out as the left-to-right backtracking scan a JavaScript engine
    performs for a global match without the `s`, `m` or `u` flags. */
module RowPattern {
  import opened Wrappers

  /** JavaScript's `\s`: the WhiteSpace and LineTerminator code points. */
  predicate IsSpace(c: char) {
    var n := c as int;
    n == 0x09 || n == 0x0A || n == 0x0B || n == 0x0C || n == 0x0D || n == 0x20
    || n == 0xA0 || n == 0x1680 || (0x2000 <= n <= 0x200A) || n == 0x2028 || n == 0x2029
    || n == 0x202F || n == 0x205F || n == 0x3000 || n == 0xFEFF
  }

  /** The characters `.` refuses when the `s` flag is absent. */
  predicate IsLineTerminator(c: char) {
    c == '\n' || c == '\r' || c as int == 0x2028 || c as int == 0x2029
  }

  /** Members of the class `[^",]`. */
  predicate IsBare(c: char) {
    c != '"' && c != ','
  }

  /** The lookahead `(?=\s*,|\s*$)` evaluated at position `p`: after the
      whitespace that starts at `p`, a comma or the end of the line. */
  predicate SeparatorAhead(s: string, p: nat)
    requires p <= |s|
    decreases |s| - p
  {
    p == |s| || s[p] == ',' || (IsSpace(s[p]) && SeparatorAhead(s, p + 1))
  }

  /** Declarative reading of the lookahead: `s[p..q]` is whitespace and `q` is
      a comma or the end of the line. */
  ghost predicate SpacesThenSeparator(s: string, p: nat, q: nat) {
    p <= q <= |s|
    && (forall k :: p <= k < q ==> IsSpace(s[k]))
    && (q == |s| || s[q] == ',')
  }

  lemma {:induction false} SeparatorAheadMeans(s: string, p: nat)
    requires p <= |s|
    ensures SeparatorAhead(s, p) <==> exists q :: SpacesThenSeparator(s, p, q)
    decreases |s| - p
  {
    if p == |s| {
      assert SpacesThenSeparator(s, p, p);
    } else if s[p] == ',' {
      assert SpacesThenSeparator(s, p, p);
    } else {
      SeparatorAheadMeans(s, p + 1);
      if SeparatorAhead(s, p) {
        var q :| SpacesThenSeparator(s, p + 1, q);
        assert SpacesThenSeparator(s, p, q);
      }
      if exists q :: SpacesThenSeparator(s, p, q) {
        var q :| SpacesThenSeparator(s, p, q);
        assert q != p;
        assert IsSpace(s[p]);
        assert SpacesThenSeparator(s, p + 1, q);
      }
    }
  }

  /** Shape of every matched token: a quoted run that keeps its quotes and
      holds no line terminator, or a non-empty run with neither `"` nor `,`. */
  predicate IsQuotedToken(t: string) {
    |t| >= 2 && t[0] == '"' && t[|t| - 1] == '"'
    && forall k :: 1 <= k < |t| - 1 ==> !IsLineTerminator(t[k])
  }

  predicate IsBareToken(t: string) {
    |t| >= 1 && forall k :: 0 <= k < |t| ==> IsBare(t[k])
  }

  predicate TokenShape(t: string) {
    IsQuotedToken(t) || IsBareToken(t)
  }

  /** `e` may end the first alternative `".*?"` opened just before `j`: the
      character before `e` is a `"` that the lookahead accepts, and the lazy
      body `s[j..e - 1]` holds no line terminator. */
  predicate ClosesQuote(s: string, j: nat, e: nat) {
    j < e <= |s| && s[e - 1] == '"' && SeparatorAhead(s, e)
    && forall k :: j <= k < e - 1 ==> !IsLineTerminator(s[k])
  }

  /** First alternative `".*?"` with its lookahead, after the opening quote:
      the lazy body so far ends just before `j`. At each step the engine first
      tries to close the quote at `j` and satisfy the lookahead, and only then
      lets `.` take one more character. Returns the end of the match. */
  function QuotedFrom(s: string, j: nat): (r: Option<nat>)
    requires 1 <= j <= |s|
    ensures r.Some? ==> j < r.value <= |s|
    decreases |s| - j
  {
    if j == |s| then None
    else if s[j] == '"' && SeparatorAhead(s, j + 1) then Some(j + 1)
    else if IsLineTerminator(s[j]) then None
    else QuotedFrom(s, j + 1)
  }

  /** The lazy quantifier stops at the nearest end that closes the quote,
      and finds none only when there is none. */
  lemma {:induction false} QuotedFromNearest(s: string, j: nat)
    requires 1 <= j <= |s|
    ensures var r := QuotedFrom(s, j);
      (r.Some? ==> ClosesQuote(s, j, r.value))
      && (r.Some? ==> forall e :: j < e < r.value ==> !ClosesQuote(s, j, e))
      && (r.None? ==> forall e :: !ClosesQuote(s, j, e))
    decreases |s| - j
  {
    if j < |s| && s[j] == '"' && SeparatorAhead(s, j + 1) {
      assert ClosesQuote(s, j, j + 1);
    } else if j < |s| {
      if IsLineTerminator(s[j]) {
        forall e: nat ensures !ClosesQuote(s, j, e) {
          if e > j + 1 {
            assert IsLineTerminator(s[j]);
          }
        }
      } else {
        QuotedFromNearest(s, j + 1);
        ClosesQuoteShift(s, j);
      }
    }
  }

  /** Past a character that `.` accepts, the ends that close the quote are
      those that close it one position later, apart from `j + 1` itself. */
  lemma ClosesQuoteShift(s: string, j: nat)
    requires j < |s| && !IsLineTerminator(s[j])
    ensures forall e :: j + 1 < e ==> (ClosesQuote(s, j, e) <==> ClosesQuote(s, j + 1, e))
  {
  }

  /** End of the greedy run of `[^",]+` that starts at `i`. */
  function BareRunEnd(s: string, i: nat): (e: nat)
    requires i <= |s|
    ensures i <= e <= |s|
    ensures e == |s| || !IsBare(s[e])
    decreases |s| - i
  {
    if i == |s| || !IsBare(s[i]) then i else BareRunEnd(s, i + 1)
  }

  /** Everything the greedy run passes over is in `[^",]`. */
  lemma {:induction false} BareRunIsBare(s: string, i: nat)
    requires i <= |s|
    ensures forall k :: i <= k < BareRunEnd(s, i) ==> IsBare(s[k])
    decreases |s| - i
  {
    if i < |s| && IsBare(s[i]) {
      BareRunIsBare(s, i + 1);
    }
  }

  /** Second alternative: give back characters of the greedy run one at a
      time, from end `e` down to length one, until the lookahead holds. */
  function BareBacktrack(s: string, i: nat, e: nat): (r: Option<nat>)
    requires i <= e <= |s|
    ensures r.Some? ==> i < r.value <= e && SeparatorAhead(s, r.value)
    decreases e - i
  {
    if e == i then None
    else if SeparatorAhead(s, e) then Some(e)
    else BareBacktrack(s, i, e - 1)
  }

  /** One attempt of the whole pattern at position `i`: the end of the match,
      or None when both alternatives fail there. */
  function MatchAt(s: string, i: nat): (r: Option<nat>)
    requires i < |s|
    ensures r.Some? ==> i < r.value <= |s|
  {
    var quoted := if s[i] == '"' then QuotedFrom(s, i + 1) else None;
    if quoted.Some? then quoted else BareBacktrack(s, i, BareRunEnd(s, i))
  }

  /** A match is non-empty, has the token shape and is followed by the
      lookahead. */
  lemma MatchAtShape(s: string, i: nat)
    requires i < |s| && MatchAt(s, i).Some?
    ensures var e := MatchAt(s, i).value;
      SeparatorAhead(s, e) && TokenShape(s[i..e])
  {
    if s[i] == '"' && QuotedFrom(s, i + 1).Some? {
      QuotedFromNearest(s, i + 1);
      QuotedShape(s, i, QuotedFrom(s, i + 1).value);
    } else {
      BareRunIsBare(s, i);
      BareShape(s, i, MatchAt(s, i).value);
    }
  }

  lemma QuotedShape(s: string, i: nat, e: nat)
    requires i < |s| && s[i] == '"' && ClosesQuote(s, i + 1, e)
    ensures IsQuotedToken(s[i..e])
  {
    var t := s[i..e];
    assert forall k :: 1 <= k < |t| - 1 ==> t[k] == s[i + k];
  }

  lemma BareShape(s: string, i: nat, e: nat)
    requires i < e <= |s|
    requires forall k :: i <= k < e ==> IsBare(s[k])
    ensures IsBareToken(s[i..e])
  {
    var t := s[i..e];
    assert forall k :: 0 <= k < |t| ==> t[k] == s[i + k];
  }


  /** `e` may end a quoted match whose opening `"` is at `i`. */
  predicate QuotedMatchEnd(s: string, i: nat, e: nat) {
    i < |s| && s[i] == '"' && ClosesQuote(s, i + 1, e)
  }

  /** When the pattern matches at a position, and where that match ends: a
      `"` with an end that closes it gives the nearest such end; otherwise the
      greedy bare run matches exactly when it is non-empty and followed by a
      comma or the end of the line, and then it is the whole match. */
  lemma MatchAtMeans(s: string, i: nat)
    requires i < |s|
    ensures (exists e :: QuotedMatchEnd(s, i, e)) ==>
      var r := MatchAt(s, i);
      r.Some? && QuotedMatchEnd(s, i, r.value)
      && forall e :: i < e < r.value ==> !QuotedMatchEnd(s, i, e)
    ensures !(exists e :: QuotedMatchEnd(s, i, e)) ==>
      var b := BareRunEnd(s, i);
      MatchAt(s, i) == if b > i && (b == |s| || s[b] == ',') then Some(b) else None
  {
    BareRunIsBare(s, i);
    BareBacktrackIsGreedy(s, i, BareRunEnd(s, i));
    if s[i] == '"' {
      QuotedFromNearest(s, i + 1);
      var q := QuotedFrom(s, i + 1);
      if q.Some? {
        assert QuotedMatchEnd(s, i, q.value);
        forall e | i < e < q.value ensures !QuotedMatchEnd(s, i, e) {
          if e == i + 1 {
            assert !ClosesQuote(s, i + 1, e);
          }
        }
      } else {
        forall e ensures !QuotedMatchEnd(s, i, e) {
          assert !ClosesQuote(s, i + 1, e);
        }
      }
    }
  }

  /** Where a match of the pattern lies in a line. */
  datatype Span = Span(start: nat, end: nat)

  /** Every span is non-empty and lies in `s[i..]`. */
  predicate SpansFrom(s: string, i: nat, spans: seq<Span>) {
    forall k :: 0 <= k < |spans| ==> i <= spans[k].start < spans[k].end <= |s|
  }

  /** The spans come in line order without overlapping. */
  predicate InOrder(spans: seq<Span>) {
    forall k, l :: 0 <= k < l < |spans| ==> spans[k].end <= spans[l].start
  }

  /** The global match from `lastIndex == i` on: try the pattern at `i`; on
      success record it and go on from its end, otherwise go on from `i + 1`. */
  function Matches(s: string, i: nat): (r: seq<Span>)
    requires i <= |s|
    ensures SpansFrom(s, i, r)
    decreases |s| - i
  {
    if i == |s| then []
    else match MatchAt(s, i)
      case Some(e) => [Span(i, e)] + Matches(s, e)
      case None => Matches(s, i + 1)
  }

  /** The spans of the global match come in line order without overlapping. */
  lemma {:induction false} MatchesInOrder(s: string, i: nat)
    requires i <= |s|
    ensures InOrder(Matches(s, i))
    decreases |s| - i
  {
    if i < |s| {
      match MatchAt(s, i)
      case Some(e) =>
        MatchesInOrder(s, e);
        assert Matches(s, i) == [Span(i, e)] + Matches(s, e);
        InOrderCons(Span(i, e), Matches(s, e));
      case None =>
        assert Matches(s, i) == Matches(s, i + 1);
        MatchesInOrder(s, i + 1);
    }
  }

  lemma InOrderCons(sp: Span, rest: seq<Span>)
    requires InOrder(rest)
    requires forall k :: 0 <= k < |rest| ==> sp.end <= rest[k].start
    ensures InOrder([sp] + rest)
  {
    var r := [sp] + rest;
    forall k, l | 0 <= k < l < |r| ensures r[k].end <= r[l].start {
      assert r[l] == rest[l - 1];
      if k > 0 {
        assert r[k] == rest[k - 1];
      }
    }
  }

  /** Position `p` lies inside none of the spans. */
  predicate Uncovered(spans: seq<Span>, p: nat) {
    forall k :: 0 <= k < |spans| ==> !(spans[k].start <= p < spans[k].end)
  }

  /** Each span is a match of the pattern at its own start. */
  predicate MatchedSpans(s: string, spans: seq<Span>) {
    forall k :: 0 <= k < |spans| ==>
      spans[k].start < |s| && MatchAt(s, spans[k].start) == Some(spans[k].end)
  }

  lemma MatchedSpansCons(s: string, sp: Span, rest: seq<Span>)
    requires sp.start < |s| && MatchAt(s, sp.start) == Some(sp.end)
    requires MatchedSpans(s, rest)
    ensures MatchedSpans(s, [sp] + rest)
  {
    var r := [sp] + rest;
    forall k | 0 <= k < |r|
      ensures r[k].start < |s| && MatchAt(s, r[k].start) == Some(r[k].end)
    {
      if k > 0 {
        assert r[k] == rest[k - 1];
      }
    }
  }

  /** Every span of the global match is the match of the pattern at its
      start. */
  lemma {:induction false} MatchesAreMatches(s: string, i: nat)
    requires i <= |s|
    ensures MatchedSpans(s, Matches(s, i))
    decreases |s| - i
  {
    if i < |s| {
      match MatchAt(s, i)
      case Some(e) =>
        MatchesAreMatches(s, e);
        assert Matches(s, i) == [Span(i, e)] + Matches(s, e);
        MatchedSpansCons(s, Span(i, e), Matches(s, e));
      case None =>
        assert Matches(s, i) == Matches(s, i + 1);
        MatchesAreMatches(s, i + 1);
    }
  }

  /** The global match skips no match: the pattern matches at no position
      that the spans leave uncovered. */
  lemma {:induction false} MatchesSkipNothing(s: string, i: nat)
    requires i <= |s|
    ensures var r := Matches(s, i);
      forall p: nat :: i <= p < |s| && Uncovered(r, p) ==> MatchAt(s, p).None?
    decreases |s| - i
  {
    if i < |s| {
      match MatchAt(s, i)
      case Some(e) =>
        MatchesSkipNothing(s, e);
        var rest := Matches(s, e);
        assert Matches(s, i) == [Span(i, e)] + rest;
        forall p: nat | i <= p < |s| && Uncovered([Span(i, e)] + rest, p)
          ensures MatchAt(s, p).None?
        {
          UncoveredTail(Span(i, e), rest, p);
        }
      case None =>
        assert Matches(s, i) == Matches(s, i + 1);
        MatchesSkipNothing(s, i + 1);
    }
  }

  lemma UncoveredTail(sp: Span, rest: seq<Span>, p: nat)
    requires Uncovered([sp] + rest, p)
    ensures !(sp.start <= p < sp.end) && Uncovered(rest, p)
  {
    var r := [sp] + rest;
    assert r[0] == sp;
    forall k | 0 <= k < |rest| ensures !(rest[k].start <= p < rest[k].end) {
      assert rest[k] == r[k + 1];
    }
  }

  predicate SpansWithin(s: string, spans: seq<Span>) {
    forall k :: 0 <= k < |spans| ==> spans[k].start <= spans[k].end <= |s|
  }

  /** The matched text of each span. */
  function Texts(s: string, spans: seq<Span>): (r: seq<string>)
    requires SpansWithin(s, spans)
    ensures |r| == |spans|
  {
    if spans == [] then [] else [s[spans[0].start..spans[0].end]] + Texts(s, spans[1..])
  }

  /** Entry `k` of the match array is the text of span `k`. */
  lemma {:induction false} TextsAre(s: string, spans: seq<Span>)
    requires SpansWithin(s, spans)
    ensures forall k :: 0 <= k < |spans| ==>
      Texts(s, spans)[k] == s[spans[k].start..spans[k].end]
  {
    if spans != [] {
      TextsAre(s, spans[1..]);
      var r := Texts(s, spans);
      assert r == [s[spans[0].start..spans[0].end]] + Texts(s, spans[1..]);
      forall k | 1 <= k < |spans| ensures r[k] == s[spans[k].start..spans[k].end] {
        assert r[k] == Texts(s, spans[1..])[k - 1] && spans[k] == spans[1..][k - 1];
      }
    }
  }

  /** All tokens of a line, in order. */
  function Tokenize(line: string): seq<string> {
    Texts(line, Matches(line, 0))
  }

  /** `row.match(...)`: null when nothing matched, the array of matches otherwise. */
  function RowMatch(line: string): (cols: Option<seq<string>>)
    ensures cols.Some? ==> |cols.value| >= 1
  {
    var tokens := Tokenize(line);
    if tokens == [] then None else Some(tokens)
  }

  /** Every token is non-empty, keeps its quotes or holds neither `"` nor `,`,
      and stands in the line at a place followed by optional whitespace and then
      a comma or the end of the line; tokens appear in line order without
      overlapping. */
  lemma TokensInLine(line: string)
    ensures var tokens, spans := Tokenize(line), Matches(line, 0);
      |tokens| == |spans|
      && (forall k :: 0 <= k < |tokens| ==>
            tokens[k] == line[spans[k].start..spans[k].end]
            && TokenShape(tokens[k])
            && exists q :: SpacesThenSeparator(line, spans[k].end, q))
      && InOrder(spans)
  {
    var tokens, spans := Tokenize(line), Matches(line, 0);
    MatchesAreMatches(line, 0);
    MatchesInOrder(line, 0);
    TextsAre(line, spans);
    forall k | 0 <= k < |tokens|
      ensures tokens[k] == line[spans[k].start..spans[k].end]
      ensures TokenShape(tokens[k])
      ensures exists q :: SpacesThenSeparator(line, spans[k].end, q)
    {
      MatchAtShape(line, spans[k].start);
      SeparatorAheadMeans(line, spans[k].end);
    }
  }

  /** The second alternative never profits from backtracking: it matches
      exactly when the greedy run is non-empty and is followed by a comma or
      the end of the line, and then the whole run is the token. */
  lemma {:induction false} BareBacktrackIsGreedy(s: string, i: nat, e: nat)
    requires i <= e <= |s|
    requires forall k :: i <= k < e ==> IsBare(s[k])
    requires e == |s| || !IsBare(s[e])
    ensures BareBacktrack(s, i, e) ==
      if e > i && (e == |s| || s[e] == ',') then Some(e) else None
  {
    if e > i && !(e == |s| || s[e] == ',') {
      assert s[e] == '"';
      NoSeparatorBefore(s, i, e, e);
    }
  }

  /** Inside a bare run ending at a quote, no position sees a separator ahead. */
  lemma {:induction false} NoSeparatorBefore(s: string, i: nat, e: nat, f: nat)
    requires i <= f <= e < |s|
    requires forall k :: i <= k < e ==> IsBare(s[k])
    requires s[e] == '"'
    ensures BareBacktrack(s, i, f) == None
    decreases f - i
  {
    if f > i {
      NoSeparatorFrom(s, f, e);
      NoSeparatorBefore(s, i, e, f - 1);
    }
  }

  lemma {:induction false} NoSeparatorFrom(s: string, p: nat, e: nat)
    requires p <= e < |s|
    requires forall k :: p <= k < e ==> IsBare(s[k])
    requires s[e] == '"'
    ensures !SeparatorAhead(s, p)
    decreases e - p
  {
    if p < e {
      NoSeparatorFrom(s, p + 1, e);
    }
  }

  /** A line yields null exactly when the pattern matches at no position; a
      blank line, or one made only of commas, is such a line. */
  lemma NoMatchMeans(line: string)
    ensures RowMatch(line).None? <==> forall i :: 0 <= i < |line| ==> MatchAt(line, i).None?
  {
    if forall i :: 0 <= i < |line| ==> MatchAt(line, i).None? {
      NoMatchesFrom(line, 0);
    } else {
      var i :| 0 <= i < |line| && MatchAt(line, i).Some?;
      SomeMatchFrom(line, 0, i);
    }
  }

  lemma {:induction false} NoMatchesFrom(s: string, j: nat)
    requires j <= |s|
    requires forall i :: j <= i < |s| ==> MatchAt(s, i).None?
    ensures Matches(s, j) == []
    decreases |s| - j
  {
    if j < |s| {
      NoMatchesFrom(s, j + 1);
    }
  }

  lemma {:induction false} SomeMatchFrom(s: string, j: nat, i: nat)
    requires j <= i < |s| && MatchAt(s, i).Some?
    ensures Matches(s, j) != []
    decreases i - j
  {
    if MatchAt(s, j).None? {
      SomeMatchFrom(s, j + 1, i);
    }
  }

  lemma BlankOrCommasOnly(line: string)
    requires forall k :: 0 <= k < |line| ==> line[k] == ','
    ensures RowMatch(line) == None
  {
    forall i | 0 <= i < |line| ensures MatchAt(line, i).None? {
      assert BareRunEnd(line, i) == i;
    }
    NoMatchesFrom(line, 0);
  }

  /** A field as a writer of the file would put it between commas: empty, a
      bare run without `"` or `,`, or a quoted run whose inside holds no `"`
      and no line terminator (it may hold commas). */
  predicate IsPlainField(f: string) {
    (forall k :: 0 <= k < |f| ==> IsBare(f[k]))
    || (|f| >= 2 && f[0] == '"' && f[|f| - 1] == '"'
        && forall k :: 1 <= k < |f| - 1 ==> f[k] != '"' && !IsLineTerminator(f[k]))
  }

  /** Fields written out with a comma between each two. */
  function JoinFields(fields: seq<string>): string {
    if |fields| == 0 then ""
    else if |fields| == 1 then fields[0]
    else fields[0] + "," + JoinFields(fields[1..])
  }

  /** The fields that are not empty, in order. */
  function NonEmpty(fields: seq<string>): (r: seq<string>)
    ensures |r| <= |fields|
    ensures forall k :: 0 <= k < |r| ==> r[k] != ""
  {
    if fields == [] then []
    else if fields[0] == "" then NonEmpty(fields[1..])
    else [fields[0]] + NonEmpty(fields[1..])
  }

  /** Round trip: tokenizing comma-joined plain fields gives back the non-empty
      fields verbatim. Quotes stay in the token, a comma inside quotes does not
      split it, an empty field disappears so the later ones move left, and
      whitespace around a field is kept. */
  lemma TokenizeJoinFields(fields: seq<string>)
    requires forall k :: 0 <= k < |fields| ==> IsPlainField(fields[k])
    ensures Tokenize(JoinFields(fields)) == NonEmpty(fields)
  {
    var s := JoinFields(fields);
    assert s[0..] == s;
    MatchesOfFields(s, 0, fields);
  }

  lemma {:induction false} MatchesOfFields(s: string, i: nat, fields: seq<string>)
    requires i <= |s| && s[i..] == JoinFields(fields)
    requires forall k :: 0 <= k < |fields| ==> IsPlainField(fields[k])
    ensures Texts(s, Matches(s, i)) == NonEmpty(fields)
    decreases fields, 0
  {
    if fields != [] {
      var f, rest := fields[0], fields[1..];
      var e := i + |f|;
      FirstField(s, i, fields);
      assert forall k :: 0 <= k < |rest| ==> rest[k] == fields[k + 1];
      FieldsAfter(s, e, rest);
      FirstFieldTexts(s, i, f);
      NonEmptyCons(fields);
      FieldStep(f, Texts(s, Matches(s, i)), Texts(s, Matches(s, e)), NonEmpty(fields), NonEmpty(rest));
    }
  }

  /** What follows the first field tokenizes as the remaining fields would:
      nothing at the end of the line, else the fields after the comma. */
  lemma {:induction false} FieldsAfter(s: string, e: nat, rest: seq<string>)
    requires e <= |s|
    requires rest == [] ==> e == |s|
    requires rest != [] ==> e < |s| && s[e] == ',' && s[e + 1..] == JoinFields(rest)
    requires forall k :: 0 <= k < |rest| ==> IsPlainField(rest[k])
    ensures Texts(s, Matches(s, e)) == NonEmpty(rest)
    decreases rest, 1
  {
    if rest != [] {
      SkipSeparator(s, e);
      MatchesOfFields(s, e + 1, rest);
    }
  }

  /** One field of the round trip: the tokens and the non-empty fields both
      gain the field in front when it is non-empty, and nothing otherwise. */
  lemma FieldStep(f: string, tokens: seq<string>, tokensAfter: seq<string>,
                  kept: seq<string>, keptAfter: seq<string>)
    requires tokensAfter == keptAfter
    requires f == "" ==> tokens == tokensAfter && kept == keptAfter
    requires f != "" ==> tokens == [f] + tokensAfter && kept == [f] + keptAfter
    ensures tokens == kept
  {
  }

  lemma NonEmptyCons(fields: seq<string>)
    requires fields != []
    ensures fields[0] == "" ==> NonEmpty(fields) == NonEmpty(fields[1..])
    ensures fields[0] != "" ==> NonEmpty(fields) == [fields[0]] + NonEmpty(fields[1..])
  {
  }

  /** A plain field, empty or not, followed by a comma or the end: a
      non-empty one is the next token, an empty one gives none. */
  lemma FirstFieldTexts(s: string, i: nat, f: string)
    requires IsPlainField(f)
    requires i + |f| <= |s| && s[i..i + |f|] == f
    requires i + |f| == |s| || s[i + |f|] == ','
    ensures f == "" ==> Texts(s, Matches(s, i)) == Texts(s, Matches(s, i + |f|))
    ensures f != "" ==> Texts(s, Matches(s, i)) == [f] + Texts(s, Matches(s, i + |f|))
  {
    if f != "" {
      PlainFieldTexts(s, i, f);
    }
  }

  /** A non-empty plain field is the next token, then the scan resumes after it. */
  lemma PlainFieldTexts(s: string, i: nat, f: string)
    requires f != "" && IsPlainField(f)
    requires i + |f| <= |s| && s[i..i + |f|] == f
    requires i + |f| == |s| || s[i + |f|] == ','
    ensures Texts(s, Matches(s, i)) == [f] + Texts(s, Matches(s, i + |f|))
  {
    MatchPlainField(s, i, f);
    TextsStep(s, i, i + |f|);
  }

  /** A comma is never where a match starts. */
  lemma SkipSeparator(s: string, i: nat)
    requires i < |s| && s[i] == ','
    ensures Matches(s, i) == Matches(s, i + 1)
  {
    assert BareRunEnd(s, i) == i;
  }

  /** A match at `i` contributes its text, then the scan resumes at its end. */
  lemma TextsStep(s: string, i: nat, e: nat)
    requires i < |s| && MatchAt(s, i) == Some(e)
    ensures Texts(s, Matches(s, i)) == [s[i..e]] + Texts(s, Matches(s, e))
  {
    var r := Matches(s, i);
    assert r == [Span(i, e)] + Matches(s, e);
    assert r[1..] == Matches(s, e);
  }


  /** How the joined text continues after its first field. */
  lemma FirstField(s: string, i: nat, fields: seq<string>)
    requires i <= |s| && s[i..] == JoinFields(fields) && fields != []
    ensures i + |fields[0]| <= |s| && s[i..i + |fields[0]|] == fields[0]
    ensures fields[1..] == [] ==> i + |fields[0]| == |s|
    ensures fields[1..] != [] ==>
      i + |fields[0]| < |s| && s[i + |fields[0]|] == ','
      && s[i + |fields[0]| + 1..] == JoinFields(fields[1..])
  {
  }

  /** A non-empty plain field followed by a comma or the end is one match. */
  lemma MatchPlainField(s: string, i: nat, f: string)
    requires f != "" && IsPlainField(f)
    requires i + |f| <= |s| && s[i..i + |f|] == f
    requires i + |f| == |s| || s[i + |f|] == ','
    ensures MatchAt(s, i) == Some(i + |f|)
  {
    var e := i + |f|;
    assert forall k :: 0 <= k < |f| ==> s[i + k] == f[k];
    if f[0] == '"' {
      QuotedToClose(s, i, e, i + 1);
    } else {
      assert forall k :: 0 <= k < |f| ==> IsBare(f[k]);
      forall k | i <= k < e ensures IsBare(s[k]) {
        assert s[k] == f[k - i];
      }
      BareRunIsBare(s, i);
      BareBacktrackIsGreedy(s, i, e);
    }
  }

  lemma {:induction false} QuotedToClose(s: string, i: nat, e: nat, j: nat)
    requires i + 2 <= e <= |s| && i + 1 <= j < e
    requires s[e - 1] == '"' && (e == |s| || s[e] == ',')
    requires forall k :: i + 1 <= k < e - 1 ==> s[k] != '"' && !IsLineTerminator(s[k])
    ensures QuotedFrom(s, j) == Some(e)
    decreases e - j
  {
    if j < e - 1 {
      QuotedToClose(s, i, e, j + 1);
    }
  }

  /** `"Acme, Inc."` is one token, quotes included. */
  lemma QuotedCommaExample()
    ensures Tokenize("\"Acme, Inc.\",TX") == ["\"Acme, Inc.\"", "TX"]
  {
    var fields := ["\"Acme, Inc.\"", "TX"];
    assert JoinFields(fields) == "\"Acme, Inc.\",TX";
    TokenizeJoinFields(fields);
  }

  /** `a,,b` loses its empty field; `a , b` keeps the spaces. */
  lemma EmptyFieldAndSpacesExample()
    ensures Tokenize("a,,b") == ["a", "b"]
    ensures Tokenize("a , b") == ["a ", " b"]
  {
    var fields := ["a", "", "b"];
    assert JoinFields(fields) == "a,,b";
    TokenizeJoinFields(fields);
    fields := ["a ", " b"];
    assert JoinFields(fields) == "a , b";
    TokenizeJoinFields(fields);
  }

  /** Whitespace between a closing quote and the comma is not part of the
      quoted token: the bare alternative takes it as a token of its own. */
  lemma SpaceAfterQuoteExample()
    ensures Tokenize("\"a\" ,b") == ["\"a\"", " ", "b"]
  {
    var s := "\"a\" ,b";
    assert QuotedFrom(s, 2) == Some(3);
    assert MatchAt(s, 0) == Some(3);
    assert BareRunEnd(s, 3) == 4;
    assert MatchAt(s, 3) == Some(4);
    assert BareRunEnd(s, 5) == 6;
    assert MatchAt(s, 5) == Some(6);
    TextsStep(s, 0, 3);
    TextsStep(s, 3, 4);
    SkipSeparator(s, 4);
    TextsStep(s, 5, 6);
    assert Matches(s, 6) == [];
    assert s[0..3] == "\"a\"" && s[3..4] == " " && s[5..6] == "b";
    assert Texts(s, Matches(s, 0)) == [s[0..3]] + ([s[3..4]] + ([s[5..6]] + []));
  }
}
