/**
 * The escape codec: freezeEscapesLocal replaces every protected span of a request text
 * by a numbered placeholder ` [T_n] ` and remembers the span under the key `[T_n]`;
 * thawEscapesLocal puts the spans back into the model's answer.
 *
 * The two regular expressions of the source are written out as scanners:
 *   protect:  \{\{.*?\}\} | <[^>]+> | \\r\\n | \\n | \\r | \\t | \r\n | \n | \r | \t
 *   restore:  \s*\[T_(\d+)\]\s*
 * A global match tries each start index from left to right, takes the first
 * alternative that matches there, and resumes after the end of the match.
 */
module EscapeCodec {
  import opened Text

  /** The per-request escape map: placeholder key to original span, and the counter
      that numbers the placeholders. */
  datatype EscapeMap = EscapeMap(entries: map<string, string>, counter: nat)

  function Key(n: nat): string {
    "[T_" + Decimal(n) + "]"
  }

  /** What a protected span is replaced by: the key with one space on each side. */
  function Placeholder(n: nat): string {
    " " + Key(n) + " "
  }

  lemma KeyInjective(a: nat, b: nat)
    ensures Key(a) == Key(b) ==> a == b
  {
    if Key(a) == Key(b) {
      assert Decimal(a) == Key(a)[3..|Key(a)| - 1];
      assert Decimal(b) == Key(b)[3..|Key(b)| - 1];
      DecimalInjective(a, b);
    }
  }

  // ---------------------------------------------------------------------------
  // The protect pattern
  // ---------------------------------------------------------------------------

  predicate ClosesAt(s: string, k: int) {
    0 <= k && k + 1 < |s| && s[k] == '}' && s[k + 1] == '}'
  }

  /** No line feed in s[a..b]: `.` without DotMatchesEverything stops at a line feed. */
  predicate NoLineFeed(s: string, a: int, b: int) {
    forall m :: a <= m < b && 0 <= m < |s| ==> s[m] != '\n'
  }

  /** The end of `.*?\}\}` started at `j`: the first `}}` at or after `j`, provided no
      line feed comes before it. */
  function BracesClose(s: string, j: nat): (r: Option<nat>)
    requires j <= |s|
    decreases |s| - j
    ensures r.Some? ==> j + 2 <= r.value <= |s|
  {
    if ClosesAt(s, j) then Some(j + 2)
    else if j < |s| && s[j] != '\n' then BracesClose(s, j + 1)
    else None
  }

  /** BracesClose is the lazy match: it stops at the first `}}`, crossing no line feed,
      and fails only when every `}}` after `j` lies behind a line feed. */
  lemma {:induction false} BracesCloseLazy(s: string, j: nat)
    requires j <= |s|
    decreases |s| - j
    ensures BracesClose(s, j).Some? ==> ClosesAt(s, BracesClose(s, j).value - 2)
    ensures BracesClose(s, j).Some? ==> NoLineFeed(s, j, BracesClose(s, j).value - 2)
    ensures BracesClose(s, j).Some? ==> forall k :: j <= k < BracesClose(s, j).value - 2 ==> !ClosesAt(s, k)
    ensures BracesClose(s, j).None? ==> forall k :: j <= k && NoLineFeed(s, j, k) ==> !ClosesAt(s, k)
  {
    if !ClosesAt(s, j) && j < |s| && s[j] != '\n' {
      BracesCloseLazy(s, j + 1);
      if BracesClose(s, j).None? {
        forall k | j <= k && NoLineFeed(s, j, k) ensures !ClosesAt(s, k) {
          if k > j { assert NoLineFeed(s, j + 1, k); }
        }
      }
    }
  }

  /** The literal alternatives of the protect pattern, in the order the pattern lists
      them: backslash-r-backslash-n, backslash-n, backslash-r, backslash-t (as text),
      then CR LF, LF, CR and TAB (the control characters). */
  const EscapeLiterals: seq<string> := ["\\r\\n", "\\n", "\\r", "\\t", "\r\n", "\n", "\r", "\t"]

  /** The end of the first literal of `alts` that occurs at `i`. */
  function LiteralEnd(s: string, i: nat, alts: seq<string>): (r: Option<nat>)
    requires forall a :: a in alts ==> a != []
    ensures r.Some? ==> i < r.value <= |s|
  {
    if alts == [] then None
    else if OccursAt(s, i, alts[0], false) then
      assert alts[0] in alts;
      Some(i + |alts[0]|)
    else
      assert forall a :: a in alts[1..] ==> a in alts;
      LiteralEnd(s, i, alts[1..])
  }

  /** LiteralEnd takes the first alternative, in the listed order, that occurs at `i`. */
  lemma {:induction false} LiteralEndFirst(s: string, i: nat, alts: seq<string>)
    requires forall a :: a in alts ==> a != []
    ensures LiteralEnd(s, i, alts).Some? ==>
              exists n :: 0 <= n < |alts| && OccursAt(s, i, alts[n], false)
                && LiteralEnd(s, i, alts).value == i + |alts[n]|
                && forall m :: 0 <= m < n ==> !OccursAt(s, i, alts[m], false)
    ensures LiteralEnd(s, i, alts).None? ==> forall a :: a in alts ==> !OccursAt(s, i, a, false)
  {
    if alts != [] && !OccursAt(s, i, alts[0], false) {
      assert forall a :: a in alts[1..] ==> a in alts;
      LiteralEndFirst(s, i, alts[1..]);
      if LiteralEnd(s, i, alts).Some? {
        var n :| 0 <= n < |alts[1..]| && OccursAt(s, i, alts[1..][n], false)
                 && LiteralEnd(s, i, alts).value == i + |alts[1..][n]|
                 && forall m :: 0 <= m < n ==> !OccursAt(s, i, alts[1..][m], false);
        assert forall m :: 0 <= m < n + 1 ==> !OccursAt(s, i, alts[m], false) by {
          forall m | 0 <= m < n + 1 ensures !OccursAt(s, i, alts[m], false) {
            if m > 0 { assert alts[m] == alts[1..][m - 1]; }
          }
        }
      } else {
        assert forall a :: a in alts ==> a == alts[0] || a in alts[1..];
      }
    }
  }

  /** The end of the match of the protect pattern that starts at index `i`, if any. */
  function ProtectedEnd(s: string, i: nat): (r: Option<nat>)
    requires i <= |s|
    ensures r.Some? ==> i < r.value <= |s|
  {
    if OccursAt(s, i, "{{", false) && BracesClose(s, i + 2).Some? then
      BracesClose(s, i + 2)
    else if i < |s| && s[i] == '<' && IndexOf(s, ">", i + 1, false).Some?
            && IndexOf(s, ">", i + 1, false).value > i + 1 then
      Some(IndexOf(s, ">", i + 1, false).value + 1)
    else
      LiteralEnd(s, i, EscapeLiterals)
  }

  /** The leftmost match at or after `p`: its start and end. */
  function NextMatch(s: string, p: nat): (r: Option<(nat, nat)>)
    requires p <= |s|
    decreases |s| - p
    ensures r.Some? ==> p <= r.value.0 < r.value.1 <= |s| && ProtectedEnd(s, r.value.0) == Some(r.value.1)
  {
    if p == |s| then None
    else
      var here := ProtectedEnd(s, p);
      if here.Some? then Some((p, here.value))
      else
        NextMatch(s, p + 1)
  }

  /** NextMatch finds the leftmost match: no match starts before the one it returns, and
      when it returns none, no match starts anywhere at or after `p`. */
  lemma {:induction false} NextMatchLeftmost(s: string, p: nat)
    requires p <= |s|
    decreases |s| - p
    ensures NextMatch(s, p).Some? ==> forall k :: p <= k < NextMatch(s, p).value.0 ==> ProtectedEnd(s, k).None?
    ensures NextMatch(s, p).None? ==> forall k :: p <= k <= |s| ==> ProtectedEnd(s, k).None?
  {
    if p < |s| && ProtectedEnd(s, p).None? {
      NextMatchLeftmost(s, p + 1);
    }
  }

  // ---------------------------------------------------------------------------
  // The decomposition of a text into gaps and protected spans
  // ---------------------------------------------------------------------------

  /** Unprotected text followed by a protected span. */
  datatype Piece = Piece(gap: string, span: string)

  /** A text is a sequence of pieces followed by an unprotected tail. */
  datatype Scan = Scan(pieces: seq<Piece>, tail: string)

  function TokenizeFrom(s: string, p: nat): Scan
    requires p <= |s|
    decreases |s| - p
  {
    match NextMatch(s, p)
    case None => Scan([], s[p..])
    case Some((b, e)) =>
      var rest := TokenizeFrom(s, e);
      Scan([Piece(s[p..b], s[b..e])] + rest.pieces, rest.tail)
  }

  /** The matches of the protect pattern in `s`, in left-to-right order. */
  function Tokenize(s: string): Scan {
    TokenizeFrom(s, 0)
  }

  /** The text a decomposition stands for. */
  function Original(ps: seq<Piece>, tail: string): string {
    if ps == [] then tail else ps[0].gap + ps[0].span + Original(ps[1..], tail)
  }

  /** The frozen text: the j-th span replaced by the placeholder numbered k + j. */
  function Render(ps: seq<Piece>, tail: string, k: nat): string {
    if ps == [] then tail else ps[0].gap + Placeholder(k) + Render(ps[1..], tail, k + 1)
  }

  function Spans(ps: seq<Piece>): (r: seq<string>)
    ensures |r| == |ps| && forall j :: 0 <= j < |ps| ==> r[j] == ps[j].span
  {
    if ps == [] then [] else [ps[0].span] + Spans(ps[1..])
  }

  /** The map that numbering `spans` from 0 produces, entry by entry. */
  function KeyMap(spans: seq<string>): map<string, string> {
    if spans == [] then map[]
    else KeyMap(spans[..|spans| - 1])[Key(|spans| - 1) := spans[|spans| - 1]]
  }

  /** The map holds exactly the keys [T_0] .. [T_{n-1}], and [T_j] maps to the j-th span. */
  lemma {:induction false} KeyMapContents(spans: seq<string>)
    ensures |KeyMap(spans)| == |spans|
    ensures forall j :: 0 <= j < |spans| ==> Key(j) in KeyMap(spans) && KeyMap(spans)[Key(j)] == spans[j]
    ensures forall key :: key in KeyMap(spans) ==> exists j :: 0 <= j < |spans| && key == Key(j)
  {
    if spans != [] {
      var n := |spans| - 1;
      var init := spans[..n];
      KeyMapContents(init);
      assert Key(n) !in KeyMap(init) by {
        if Key(n) in KeyMap(init) {
          var j :| 0 <= j < |init| && Key(n) == Key(j);
          KeyInjective(n, j);
        }
      }
      forall j | 0 <= j < |spans|
        ensures Key(j) in KeyMap(spans) && KeyMap(spans)[Key(j)] == spans[j]
      {
        if j < n {
          KeyInjective(n, j);
          assert init[j] == spans[j];
        }
      }
    }
  }

  lemma OriginalCons(x: Piece, ps: seq<Piece>, tail: string)
    ensures Original([x] + ps, tail) == x.gap + x.span + Original(ps, tail)
  {
    assert ([x] + ps)[1..] == ps;
  }

  /** The decomposition from `p` begins with the leftmost match after `p`. */
  lemma TokenizeUnfold(s: string, p: nat)
    requires p <= |s| && NextMatch(s, p).Some?
    ensures TokenizeFrom(s, p).pieces
            == [Piece(s[p..NextMatch(s, p).value.0], s[NextMatch(s, p).value.0..NextMatch(s, p).value.1])]
               + TokenizeFrom(s, NextMatch(s, p).value.1).pieces
    ensures TokenizeFrom(s, p).tail == TokenizeFrom(s, NextMatch(s, p).value.1).tail
  {
  }

  /** The gaps and spans put back together give the scanned text: unmatched text is
      kept verbatim and nothing is lost or reordered. */
  lemma {:induction false} TokenizeOriginal(s: string, p: nat)
    requires p <= |s|
    ensures Original(TokenizeFrom(s, p).pieces, TokenizeFrom(s, p).tail) == s[p..]
    decreases |s| - p
  {
    var nm := NextMatch(s, p);
    if nm.Some? {
      var b, e := nm.value.0, nm.value.1;
      TokenizeOriginal(s, e);
      TokenizeUnfold(s, p);
      OriginalCons(Piece(s[p..b], s[b..e]), TokenizeFrom(s, e).pieces, TokenizeFrom(s, e).tail);
      SplitSuffix(s, p, b, e);
    }
  }

  /** One step of the scan: when the leftmost match at or after `p` starts at `i` and
      ends at `e`, the decomposition from `p` is one piece followed by the decomposition
      from `e`, which is what the spans and the rendering from `p` consist of. */
  lemma FreezeStep(s: string, p: nat, i: nat, e: nat, k: nat)
    requires p <= i < e <= |s|
    requires NextMatch(s, p) == NextMatch(s, i)
    requires ProtectedEnd(s, i) == Some(e)
    ensures |TokenizeFrom(s, p).pieces| == 1 + |TokenizeFrom(s, e).pieces|
    ensures Spans(TokenizeFrom(s, p).pieces) == [s[i..e]] + Spans(TokenizeFrom(s, e).pieces)
    ensures Render(TokenizeFrom(s, p).pieces, TokenizeFrom(s, p).tail, k)
            == s[p..i] + Placeholder(k) + Render(TokenizeFrom(s, e).pieces, TokenizeFrom(s, e).tail, k + 1)
  {
    assert NextMatch(s, i) == Some((i, e));
    var rest := TokenizeFrom(s, p);
    var next := TokenizeFrom(s, e);
    assert rest.pieces == [Piece(s[p..i], s[i..e])] + next.pieces;
    assert rest.pieces[1..] == next.pieces;
  }

  /** Index `i` starts no match, so the leftmost match from `i` is the one from `i + 1`. */
  lemma NoMatchAt(s: string, i: nat)
    requires i < |s| && ProtectedEnd(s, i).None?
    ensures NextMatch(s, i) == NextMatch(s, i + 1)
  {
  }

  /** Numbering one more span extends the map by one entry. */
  lemma KeyMapSnoc(spans: seq<string>, x: string)
    ensures KeyMap(spans + [x]) == KeyMap(spans)[Key(|spans|) := x]
  {
    assert (spans + [x])[..|spans|] == spans;
  }

  method Freeze(input: string) returns (frozen: string, ctx: EscapeMap)
    ensures frozen == Render(Tokenize(input).pieces, Tokenize(input).tail, 0)
    ensures ctx.entries == KeyMap(Spans(Tokenize(input).pieces))
    ensures ctx.counter == |Tokenize(input).pieces| == |ctx.entries|
    ensures forall k :: 0 <= k < ctx.counter ==>
              Key(k) in ctx.entries && ctx.entries[Key(k)] == Tokenize(input).pieces[k].span
    ensures Original(Tokenize(input).pieces, Tokenize(input).tail) == input
  {
    var entries: map<string, string> := map[];
    var counter: nat := 0;
    var newResult := "";
    var lastEnd: nat := 0;
    var i: nat := 0;
    ghost var done: seq<string> := [];
    ghost var whole := Tokenize(input);
    ghost var restR := Render(whole.pieces, whole.tail, 0);
    while i < |input|
      invariant lastEnd <= i <= |input|
      invariant NextMatch(input, lastEnd) == NextMatch(input, i)
      invariant counter + |TokenizeFrom(input, lastEnd).pieces| == |whole.pieces|
      invariant counter == |done| && entries == KeyMap(done)
      invariant done + Spans(TokenizeFrom(input, lastEnd).pieces) == Spans(whole.pieces)
      invariant restR == Render(TokenizeFrom(input, lastEnd).pieces, TokenizeFrom(input, lastEnd).tail, counter)
      invariant newResult + restR == Render(whole.pieces, whole.tail, 0)
    {
      var m := ProtectedEnd(input, i);
      if m.Some? {
        var e := m.value;
        var original := input[i..e];
        var tokenKey := Key(counter);
        var tokenWithSpace := " " + tokenKey + " ";
        FreezeStep(input, lastEnd, i, e, counter);
        ghost var nextR := Render(TokenizeFrom(input, e).pieces, TokenizeFrom(input, e).tail, counter + 1);
        assert restR == input[lastEnd..i] + tokenWithSpace + nextR;
        Regroup(newResult, input[lastEnd..i], tokenWithSpace, nextR);
        restR := nextR;
        KeyMapSnoc(done, original);
        Assoc(done, [original], Spans(TokenizeFrom(input, e).pieces));
        entries := entries[tokenKey := original];
        newResult := newResult + input[lastEnd..i] + tokenWithSpace;
        done := done + [original];
        counter := counter + 1;
        lastEnd := e;
        i := e;
      } else {
        NoMatchAt(input, i);
        i := i + 1;
      }
    }
    assert TokenizeFrom(input, lastEnd) == Scan([], input[lastEnd..]);
    assert done == Spans(whole.pieces) by {
      assert Spans(TokenizeFrom(input, lastEnd).pieces) == [];
      assert done + [] == done;
    }
    KeyMapContents(done);
    TokenizeOriginal(input, 0);
    newResult := newResult + input[lastEnd..];
    frozen, ctx := newResult, EscapeMap(entries, counter);
  }

  // ---------------------------------------------------------------------------
  // The restore pattern
  // ---------------------------------------------------------------------------

  /** Where the `\[T_(\d+)\]` match starting at index `j` ends, if one starts there
      (`\d+` is greedy, and a digit never matches `]`, so the digits are the whole run). */
  function TokenEnd(s: string, j: nat): (r: Option<nat>)
    requires j <= |s|
    ensures r.Some? ==> j + 5 <= r.value <= |s|
  {
    if j + 3 <= |s| && s[j] == '[' && s[j + 1] == 'T' && s[j + 2] == '_' then
      var d := RunEnd(IsDigit, s, j + 3);
      if j + 3 < d < |s| && s[d] == ']' then Some(d + 1) else None
    else None
  }

  /** TokenEnd is exactly the pattern: `[T_`, one or more digits, `]`. */
  lemma TokenEndSpec(s: string, j: nat)
    requires j <= |s|
    ensures TokenEnd(s, j).Some? ==>
              var t := TokenEnd(s, j).value;
              s[j] == '[' && s[j + 1] == 'T' && s[j + 2] == '_' && s[t - 1] == ']'
              && forall k :: j + 3 <= k < t - 1 ==> IsDigit(s[k])
  {
    if j + 3 <= |s| {
      RunEndSpec(IsDigit, s, j + 3);
    }
  }

  /** Conversely, `[T_`, one or more digits and `]` ending at `t` are a match ending
      there. */
  lemma TokenEndShape(s: string, j: nat, t: nat)
    requires j + 5 <= t <= |s|
    requires s[j] == '[' && s[j + 1] == 'T' && s[j + 2] == '_' && s[t - 1] == ']'
    requires forall k :: j + 3 <= k < t - 1 ==> IsDigit(s[k])
    ensures TokenEnd(s, j) == Some(t)
  {
    RunEndSpec(IsDigit, s, j + 3);
  }

  /** No `[T_n]` token starts anywhere in `s`. */
  predicate NoToken(s: string) {
    forall j :: 0 <= j <= |s| ==> TokenEnd(s, j).None?
  }

  /** `s` does not start with whitespace. */
  predicate StartOk(s: string) {
    s == [] || !IsRegexSpace(s[0])
  }

  /** `s` does not end with whitespace. */
  predicate EndOk(s: string) {
    s == [] || !IsRegexSpace(s[|s| - 1])
  }

  /** The condition under which thawing a frozen text gives it back: no unprotected text
      contains a token, and no whitespace touches a placeholder (the restore pattern
      absorbs whitespace on both sides of a key). */
  predicate Thawable(ps: seq<Piece>, tail: string) {
    && (forall j :: 0 <= j < |ps| ==> NoToken(ps[j].gap) && EndOk(ps[j].gap))
    && (forall j :: 0 < j < |ps| ==> StartOk(ps[j].gap))
    && NoToken(tail)
    && (ps != [] ==> StartOk(tail))
  }

  /** The match of `\s*\[T_(\d+)\]\s*` at index `i`: where the token starts, where it
      ends, and where the match ends. Both `\s*` are greedy, and neither `[` nor the
      character after a digit run can be whitespace, so no backtracking is needed. */
  datatype ThawMatch = NoMatch | Match(w: nat, t: nat, e: nat)

  /** The match whose token starts at `w`, with the trailing `\s*`. */
  function TokenMatch(s: string, w: nat): (r: ThawMatch)
    requires w <= |s|
    ensures r.Match? ==> r.w == w && w + 5 <= r.t <= r.e <= |s|
  {
    var t := TokenEnd(s, w);
    if t.None? then NoMatch else Match(w, t.value, RunEnd(IsRegexSpace, s, t.value))
  }

  function ThawMatchAt(s: string, i: nat): (r: ThawMatch)
    requires i <= |s|
    ensures r.Match? ==> i <= r.w && r.w + 5 <= r.t <= r.e <= |s|
    decreases |s| - i
  {
    if i < |s| && IsRegexSpace(s[i]) then ThawMatchAt(s, i + 1) else TokenMatch(s, i)
  }

  /** A match moved `d` characters to the right. */
  function Moved(m: ThawMatch, d: nat): ThawMatch {
    if m.NoMatch? then NoMatch else Match(m.w + d, m.t + d, m.e + d)
  }

  /** The leading `\s*` is the whole run of whitespace at `i`. */
  lemma {:induction false} ThawMatchRun(s: string, i: nat)
    requires i <= |s|
    decreases |s| - i
    ensures ThawMatchAt(s, i) == TokenMatch(s, RunEnd(IsRegexSpace, s, i))
  {
    if i < |s| && IsRegexSpace(s[i]) {
      ThawMatchRun(s, i + 1);
    }
  }

  /** What a match is replaced by: the stored span when the map holds the key built from
      the captured digits, the bare key otherwise. */
  function Restore(entries: map<string, string>, key: string): string {
    if key in entries then entries[key] else key
  }

  /** thawEscapesLocal as a function of the text: the leftmost match of the restore
      pattern is replaced as Restore says, the text before it is kept, and the search
      goes on after the match. */
  function ThawText(s: string, entries: map<string, string>): string
    decreases |s|
  {
    if s == [] then []
    else
      var m := ThawMatchAt(s, 0);
      if m.NoMatch? then [s[0]] + ThawText(s[1..], entries)
      else Restore(entries, s[m.w..m.t]) + ThawText(s[m.e..], entries)
  }

  /** Thawing a text whose start does not match the pattern. */
  lemma {:induction false} ThawTextFirst(f: string, entries: map<string, string>)
    requires f != [] && ThawMatchAt(f, 0).NoMatch?
    ensures ThawText(f, entries) == [f[0]] + ThawText(f[1..], entries)
  {
  }

  /** Thawing from index `i`, where the pattern does not match. */
  lemma {:induction false} ThawTextSkip(s: string, i: nat, entries: map<string, string>)
    requires i < |s| && ThawMatchAt(s, i).NoMatch?
    ensures ThawText(s[i..], entries) == [s[i]] + ThawText(s[i + 1..], entries)
  {
    ThawMatchDrop(s, i, 0);
    ThawTextFirst(s[i..], entries);
    assert s[i..][0] == s[i] && s[i..][1..] == s[i + 1..];
  }

  /** Thawing a text whose start matches the pattern. */
  lemma {:induction false} ThawTextHead(f: string, m: ThawMatch, entries: map<string, string>)
    requires f != [] && m == ThawMatchAt(f, 0) && m.Match?
    ensures ThawText(f, entries) == Restore(entries, f[m.w..m.t]) + ThawText(f[m.e..], entries)
  {
  }

  /** A match at index `i` is the match at the start of the text from `i` on. */
  lemma {:induction false} MatchSuffix(s: string, i: nat, m: ThawMatch)
    requires i < |s| && m == ThawMatchAt(s, i) && m.Match?
    ensures ThawMatchAt(s[i..], 0) == Match(m.w - i, m.t - i, m.e - i)
  {
    ThawMatchDrop(s, i, 0);
  }

  /** The key and the rest after a match, read in the text from `i` on. */
  lemma {:induction false} MatchSuffixSlices(s: string, i: nat, m: ThawMatch, n: ThawMatch)
    requires i < |s| && m.Match? && i <= m.w <= m.t <= m.e <= |s|
    requires n == Match(m.w - i, m.t - i, m.e - i)
    ensures s[i..][n.w..n.t] == s[m.w..m.t]
    ensures s[i..][n.e..] == s[m.e..]
  {
    SliceDrop(s, i, n.w, n.t);
    SliceDrop(s, i, n.e, n.e);
  }

  /** Thawing from index `i`, where the pattern matches. */
  lemma {:induction false} ThawTextMatch(s: string, i: nat, m: ThawMatch, entries: map<string, string>)
    requires i < |s| && m == ThawMatchAt(s, i) && m.Match?
    ensures ThawText(s[i..], entries) == Restore(entries, s[m.w..m.t]) + ThawText(s[m.e..], entries)
  {
    MatchSuffix(s, i, m);
    var n := ThawMatchAt(s[i..], 0);
    MatchSuffixSlices(s, i, m, n);
    ThawTextHead(s[i..], n, entries);
  }

  /** ThawText of the text from index `i` on, told by index: the form in which the
      thawing loop walks the text. */
  function ThawFrom(s: string, i: nat, entries: map<string, string>): string
    requires i <= |s|
    decreases |s| - i
  {
    if i == |s| then []
    else
      var m := ThawMatchAt(s, i);
      if m.NoMatch? then [s[i]] + ThawFrom(s, i + 1, entries)
      else Restore(entries, s[m.w..m.t]) + ThawFrom(s, m.e, entries)
  }

  /** Walking by index and thawing the suffix agree. */
  lemma {:induction false} ThawFromSuffix(s: string, i: nat, entries: map<string, string>)
    requires i <= |s|
    decreases |s| - i
    ensures ThawFrom(s, i, entries) == ThawText(s[i..], entries)
  {
    if i < |s| {
      var m := ThawMatchAt(s, i);
      if m.NoMatch? {
        ThawTextSkip(s, i, entries);
        ThawFromSuffix(s, i + 1, entries);
      } else {
        ThawTextMatch(s, i, m, entries);
        ThawFromSuffix(s, m.e, entries);
      }
    }
  }

  /** One step of the thawing loop past a match: the pending text and the restored key
      join the result, and nothing is pending after the match. */
  lemma {:induction false} ThawStepMatch(input: string, entries: map<string, string>, done: string,
                                         lastEnd: nat, i: nat, m: ThawMatch)
    requires lastEnd <= i < |input| && m == ThawMatchAt(input, i) && m.Match?
    ensures done + (input[lastEnd..i] + ThawFrom(input, i, entries))
         == (done + input[lastEnd..i] + Restore(entries, input[m.w..m.t]))
            + (input[m.e..m.e] + ThawFrom(input, m.e, entries))
  {
    assert input[m.e..m.e] == [];
    MoveOut(done, input[lastEnd..i], Restore(entries, input[m.w..m.t]), ThawFrom(input, m.e, entries));
  }

  /** One step of the thawing loop where the pattern does not match: the character
      joins the pending text. */
  lemma {:induction false} ThawStepSkip(input: string, entries: map<string, string>, done: string,
                                        lastEnd: nat, i: nat)
    requires lastEnd <= i < |input| && ThawMatchAt(input, i).NoMatch?
    ensures done + (input[lastEnd..i] + ThawFrom(input, i, entries))
         == done + (input[lastEnd..i + 1] + ThawFrom(input, i + 1, entries))
  {
    assert input[lastEnd..i + 1] == input[lastEnd..i] + [input[i]];
    MoveIn(done, input[lastEnd..i], [input[i]], ThawFrom(input, i + 1, entries));
  }

  /** thawEscapesLocal: the answer with every placeholder match restored. */
  method Thaw(input: string, ctx: EscapeMap) returns (output: string)
    ensures output == ThawText(input, ctx.entries)
  {
    var newResult := "";
    var lastEnd: nat := 0;
    var i: nat := 0;
    while i < |input|
      invariant lastEnd <= i <= |input|
      invariant newResult + (input[lastEnd..i] + ThawFrom(input, i, ctx.entries)) == ThawFrom(input, 0, ctx.entries)
    {
      var m := ThawMatchAt(input, i);
      if m.Match? {
        ThawStepMatch(input, ctx.entries, newResult, lastEnd, i, m);
        newResult := newResult + input[lastEnd..i] + Restore(ctx.entries, input[m.w..m.t]);
        lastEnd := m.e;
        i := m.e;
      } else {
        ThawStepSkip(input, ctx.entries, newResult, lastEnd, i);
        i := i + 1;
      }
    }
    assert input[lastEnd..i] == input[lastEnd..];
    newResult := newResult + input[lastEnd..];
    output := newResult;
    ThawFromSuffix(input, 0, ctx.entries);
    assert input[0..] == input;
  }

  // ---------------------------------------------------------------------------
  // Properties of the restore pattern
  // ---------------------------------------------------------------------------

  /** Matching only looks forward: a token in the second part of a concatenation is the
      token of that part. */
  lemma TokenEndShift(a: string, b: string, j: nat)
    requires j <= |b|
    ensures TokenEnd(a + b, |a| + j).Some? <==> TokenEnd(b, j).Some?
    ensures TokenEnd(b, j).Some? ==> TokenEnd(a + b, |a| + j).value == |a| + TokenEnd(b, j).value
  {
    if j + 3 <= |b| {
      RunEndShift(IsDigit, a, b, j + 3);
      assert (a + b)[|a| + j] == b[j] && (a + b)[|a| + j + 1] == b[j + 1] && (a + b)[|a| + j + 2] == b[j + 2];
      var d := RunEnd(IsDigit, b, j + 3);
      if d < |b| {
        assert (a + b)[|a| + d] == b[d];
      }
    }
  }

  /** The token pattern does not depend on the text in front. */
  lemma {:induction false} TokenMatchShift(a: string, b: string, w: nat)
    requires w <= |b|
    ensures TokenMatch(a + b, |a| + w) == Moved(TokenMatch(b, w), |a|)
  {
    TokenEndShift(a, b, w);
    if TokenEnd(b, w).Some? {
      RunEndShift(IsRegexSpace, a, b, TokenEnd(b, w).value);
    }
  }

  /** The restore pattern does not depend on the text in front. */
  lemma {:induction false} ThawMatchShift(a: string, b: string, j: nat)
    requires j <= |b|
    decreases |b| - j
    ensures ThawMatchAt(a + b, |a| + j) == Moved(ThawMatchAt(b, j), |a|)
  {
    if j < |b| {
      assert (a + b)[|a| + j] == b[j];
    }
    if j < |b| && IsRegexSpace(b[j]) {
      ThawMatchShift(a, b, j + 1);
    } else {
      TokenMatchShift(a, b, j);
    }
  }

  /** Matching only looks forward: the match at index `a + i` of `f` is the match at
      index `i` of the text from `a` on, moved by `a`. */
  lemma {:induction false} ThawMatchDrop(f: string, a: nat, i: nat)
    requires a <= |f| && i <= |f| - a
    ensures ThawMatchAt(f, a + i) == Moved(ThawMatchAt(f[a..], i), a)
  {
    var p := f[..a];
    assert f == p + f[a..];
    ThawMatchShift(p, f[a..], i);
  }

  /** A text that goes on with a space (or not at all) has no token running past its
      end: a token cannot contain that space. */
  lemma TokenEndAppend(g: string, rest: string, j: nat)
    requires j <= |g|
    requires rest == [] || rest[0] == ' '
    ensures j < |g| ==> TokenEnd(g + rest, j) == TokenEnd(g, j)
  {
    if rest == [] {
      assert g + rest == g;
    } else if j + 3 <= |g| {
      assert (g + rest)[j] == g[j] && (g + rest)[j + 1] == g[j + 1] && (g + rest)[j + 2] == g[j + 2];
      RunEndAppend(IsDigit, g, rest, j + 3);
      var d := RunEnd(IsDigit, g, j + 3);
      if d < |g| {
        assert (g + rest)[d] == g[d];
      } else {
        assert (g + rest)[|g|] == ' ';
        assert RunEnd(IsDigit, rest, 0) == 0;
      }
    } else if j < |g| {
      assert (g + rest)[|g|] == ' ';
    }
  }

  /** Inside a text without tokens that does not end in whitespace, and that goes on with
      a space or not at all, the restore pattern matches nowhere. */
  lemma {:induction false} GapNoMatch(g: string, rest: string, q: nat)
    requires q < |g| && NoToken(g) && EndOk(g)
    requires rest == [] || rest[0] == ' '
    ensures ThawMatchAt(g + rest, q).NoMatch?
  {
    ThawMatchRun(g + rest, q);
    RunEndAppend(IsRegexSpace, g, rest, q);
    RunEndSpec(IsRegexSpace, g, q);
    var w := RunEnd(IsRegexSpace, g, q);
    TokenEndAppend(g, rest, w);
  }

  /** In a text without tokens the restore pattern matches nowhere. */
  lemma {:induction false} NoTokenNoMatch(s: string, q: nat)
    requires q <= |s| && NoToken(s)
    ensures ThawMatchAt(s, q).NoMatch?
  {
    ThawMatchRun(s, q);
    assert TokenEnd(s, RunEnd(IsRegexSpace, s, q)).None?;
  }

  /** The token pattern at the start of a key finds exactly that key. */
  lemma {:induction false} KeyToken(k: nat, post: string)
    ensures TokenEnd(Key(k) + post, 0) == Some(|Key(k)|)
  {
    var d := Decimal(k);
    var s := Key(k) + post;
    assert s == "[T_" + (d + ("]" + post));
    RunEndShift(IsDigit, "[T_", d + ("]" + post), 0);
    RunEndAll(IsDigit, d, 0);
    RunEndAppend(IsDigit, d, "]" + post, 0);
    assert ("]" + post)[0] == ']';
    assert s[3 + |d|] == ']';
  }

  /** The restore pattern on a space, a token and a space followed by `r`. */
  lemma {:induction false} PaddedMatch(key: string, r: string)
    requires TokenEnd(key + (" " + r), 0) == Some(|key|)
    ensures ThawMatchAt(" " + (key + (" " + r)), 0)
         == Match(1, 1 + |key|, 2 + |key| + RunEnd(IsRegexSpace, r, 0))
  {
    var y := " " + (key + (" " + r));
    assert y[0] == ' ';
    RunEndShift(IsRegexSpace, " ", key + (" " + r), 0);
    assert RunEnd(IsRegexSpace, key + (" " + r), 0) == 0 by {
      assert (key + (" " + r))[0] == '[' by { TokenEndSpec(key + (" " + r), 0); }
    }
    assert RunEnd(IsRegexSpace, y, 0) == 1;
    TokenEndShift(" ", key + (" " + r), 0);
    RunEndShift(IsRegexSpace, " " + key, " " + r, 0);
    RunEndShift(IsRegexSpace, " ", r, 0);
    assert y == (" " + key) + (" " + r);
  }

  /** The restore pattern at the start of a placeholder: the leading space, the key, and
      the trailing space together with any whitespace that follows. */
  lemma {:induction false} PlaceholderMatch(k: nat, r: string)
    ensures ThawMatchAt(Placeholder(k) + r, 0)
         == Match(1, 1 + |Key(k)|, |Placeholder(k)| + RunEnd(IsRegexSpace, r, 0))
    ensures (Placeholder(k) + r)[1..1 + |Key(k)|] == Key(k)
  {
    var key := Key(k);
    KeyToken(k, " " + r);
    PaddedMatch(key, r);
    assert Placeholder(k) + r == " " + (key + (" " + r));
  }

  /** A text without tokens stays one after its first character. */
  lemma {:induction false} NoTokenTail(s: string)
    requires s != [] && NoToken(s)
    ensures NoToken(s[1..])
  {
    assert [s[0]] + s[1..] == s;
    forall j | 0 <= j <= |s[1..]|
      ensures TokenEnd(s[1..], j).None?
    {
      TokenEndShift([s[0]], s[1..], j);
    }
  }

  /** A text that does not end in whitespace still does not after its first character. */
  lemma {:induction false} EndOkTail(s: string)
    requires s != [] && EndOk(s)
    ensures EndOk(s[1..])
  {
    if |s| > 1 {
      assert s[1..][|s[1..]| - 1] == s[|s| - 1];
    }
  }

  /** The first character of a text without tokens is copied. */
  lemma {:induction false} IdentityStep(s: string, entries: map<string, string>)
    requires s != [] && NoToken(s)
    ensures ThawText(s, entries) == [s[0]] + ThawText(s[1..], entries)
    ensures NoToken(s[1..]) && [s[0]] + s[1..] == s
  {
    NoTokenNoMatch(s, 0);
    ThawTextFirst(s, entries);
    NoTokenTail(s);
  }

  /** Thawing a text without tokens changes nothing. */
  lemma {:induction false} ThawIdentity(s: string, entries: map<string, string>)
    requires NoToken(s)
    decreases |s|
    ensures ThawText(s, entries) == s
  {
    if s != [] {
      IdentityStep(s, entries);
      ThawIdentity(s[1..], entries);
    }
  }

  /** The first character of a gap is copied, and the rest of the gap is again a gap. */
  lemma {:induction false} GapStep(g: string, x: string, entries: map<string, string>)
    requires g != [] && NoToken(g) && EndOk(g)
    requires x == [] || x[0] == ' '
    ensures ThawText(g + x, entries) == [g[0]] + ThawText(g[1..] + x, entries)
    ensures NoToken(g[1..]) && EndOk(g[1..]) && [g[0]] + g[1..] == g
  {
    var y := g + x;
    GapNoMatch(g, x, 0);
    ThawTextFirst(y, entries);
    NoTokenTail(g);
    TailAppend(g, x);
    EndOkTail(g);
  }

  /** A gap without tokens that does not end in whitespace, in front of a space (or of
      nothing), is copied unchanged. */
  lemma {:induction false} GapCopy(g: string, x: string, entries: map<string, string>)
    requires NoToken(g) && EndOk(g)
    requires x == [] || x[0] == ' '
    decreases |g|
    ensures ThawText(g + x, entries) == g + ThawText(x, entries)
  {
    if g == [] {
      assert g + x == x;
    } else {
      GapStep(g, x, entries);
      GapCopy(g[1..], x, entries);
      Assoc([g[0]], g[1..], ThawText(x, entries));
    }
  }

  /** Thawing a placeholder restores its key, and swallows the whitespace after it. */
  lemma {:induction false} PlaceholderThaw(k: nat, r: string, entries: map<string, string>)
    ensures ThawText(Placeholder(k) + r, entries)
         == Restore(entries, Key(k)) + ThawText(r[RunEnd(IsRegexSpace, r, 0)..], entries)
  {
    var x := Placeholder(k) + r;
    var m := ThawMatchAt(x, 0);
    PlaceholderMatch(k, r);
    SuffixShift(Placeholder(k), r, RunEnd(IsRegexSpace, r, 0));
    assert x[m.w..m.t] == Key(k) && x[m.e..] == r[RunEnd(IsRegexSpace, r, 0)..];
    ThawTextHead(x, m, entries);
  }

  /** A rest that opens with at most one whitespace character, and only when a match
      follows at once. */
  predicate ResumeOk(r: string) {
    || RunEnd(IsRegexSpace, r, 0) == 0
    || (RunEnd(IsRegexSpace, r, 0) == 1 && ThawMatchAt(r, 0).Match?)
  }

  /** The whitespace a placeholder swallows from a rest that is ResumeOk makes no
      difference to the thawed rest. */
  lemma {:induction false} ResumeThaw(r: string, entries: map<string, string>)
    requires ResumeOk(r)
    ensures ThawText(r[RunEnd(IsRegexSpace, r, 0)..], entries) == ThawText(r, entries)
  {
    if RunEnd(IsRegexSpace, r, 0) == 0 {
      assert r[0..] == r;
    } else {
      RunEndSpec(IsRegexSpace, r, 0);
      assert ThawMatchAt(r, 0) == ThawMatchAt(r, 1);
      ThawTextMatch(r, 1, ThawMatchAt(r, 1), entries);
    }
  }

  /** How much whitespace a frozen text starts with when no gap after the first starts
      with whitespace: one space exactly when it starts with a placeholder. */
  lemma {:induction false} RenderStart(ps: seq<Piece>, tail: string, k: nat)
    requires ps == [] ==> StartOk(tail)
    requires ps != [] ==> StartOk(ps[0].gap)
    ensures RunEnd(IsRegexSpace, Render(ps, tail, k), 0)
         == if ps != [] && ps[0].gap == [] then 1 else 0
    ensures ps != [] && ps[0].gap == [] ==> ThawMatchAt(Render(ps, tail, k), 0).Match?
    ensures ResumeOk(Render(ps, tail, k))
  {
    var r := Render(ps, tail, k);
    if ps != [] && ps[0].gap == [] {
      var r2 := Render(ps[1..], tail, k + 1);
      assert r == Placeholder(k) + r2;
      PlaceholderMatch(k, r2);
    } else if ps != [] {
      assert r[0] == ps[0].gap[0];
    }
  }

  /** `entries` maps the key numbered `i` to the span of piece `i - k`, for every piece. */
  predicate Numbered(entries: map<string, string>, ps: seq<Piece>, k: nat) {
    forall i: nat :: k <= i < k + |ps| ==> Key(i) in entries && entries[Key(i)] == ps[i - k].span
  }

  lemma NumberedRest(entries: map<string, string>, ps: seq<Piece>, k: nat)
    requires ps != [] && Numbered(entries, ps, k)
    ensures Restore(entries, Key(k)) == ps[0].span
    ensures Numbered(entries, ps[1..], k + 1)
  {
  }

  lemma ThawableRest(ps: seq<Piece>, tail: string)
    requires ps != [] && Thawable(ps, tail)
    ensures Thawable(ps[1..], tail)
    ensures ps[1..] == [] ==> StartOk(tail)
    ensures ps[1..] != [] ==> StartOk(ps[1..][0].gap)
  {
  }

  /** One piece of a frozen text thaws back to its gap and its span. */
  lemma {:induction false} ThawPiece(ps: seq<Piece>, tail: string, k: nat, entries: map<string, string>,
                                     r: string, x: string)
    requires ps != [] && Thawable(ps, tail) && Numbered(entries, ps, k)
    requires r == Render(ps[1..], tail, k + 1)
    requires x == ps[0].gap + (Placeholder(k) + r)
    ensures ThawText(x, entries) == ps[0].gap + (ps[0].span + ThawText(r, entries))
  {
    assert (Placeholder(k) + r)[0] == ' ';
    GapCopy(ps[0].gap, Placeholder(k) + r, entries);
    PlaceholderThaw(k, r, entries);
    ThawableRest(ps, tail);
    RenderStart(ps[1..], tail, k + 1);
    ResumeThaw(r, entries);
    NumberedRest(entries, ps, k);
  }

  /** Thawing a frozen text gives back the original, provided the map numbers its spans
      and the text is Thawable. */
  lemma {:induction false} ThawRender(ps: seq<Piece>, tail: string, k: nat, entries: map<string, string>)
    requires Thawable(ps, tail) && Numbered(entries, ps, k)
    decreases |ps|
    ensures ThawText(Render(ps, tail, k), entries) == Original(ps, tail)
  {
    if ps == [] {
      ThawIdentity(tail, entries);
    } else {
      var r := Render(ps[1..], tail, k + 1);
      Assoc(ps[0].gap, Placeholder(k), r);
      ThawPiece(ps, tail, k, entries, r, ps[0].gap + (Placeholder(k) + r));
      ThawableRest(ps, tail);
      NumberedRest(entries, ps, k);
      ThawRender(ps[1..], tail, k + 1, entries);
      Assoc(ps[0].gap, ps[0].span, Original(ps[1..], tail));
    }
  }

  /** Freezing and then thawing with the map Freeze builds gives the request text back,
      provided no unprotected text holds a `[T_n]` token and no whitespace touches a
      protected span. */
  lemma {:induction false} RoundTrip(input: string)
    requires Thawable(Tokenize(input).pieces, Tokenize(input).tail)
    ensures ThawText(Render(Tokenize(input).pieces, Tokenize(input).tail, 0),
                     KeyMap(Spans(Tokenize(input).pieces))) == input
  {
    var sc := Tokenize(input);
    var spans := Spans(sc.pieces);
    KeyMapContents(spans);
    assert Numbered(KeyMap(spans), sc.pieces, 0);
    ThawRender(sc.pieces, sc.tail, 0, KeyMap(spans));
    TokenizeOriginal(input, 0);
    assert input[0..] == input;
  }

  /** Why the round trip needs Thawable: a space in front of a protected span is eaten by
      the leading `\s*` of the restore pattern, so " " followed by a span thaws to the
      span alone. */
  lemma {:induction false} SpaceBeforeSpanLost(span: string)
    ensures Original([Piece(" ", span)], "") == " " + span
    ensures ThawText(Render([Piece(" ", span)], "", 0), KeyMap([span])) == span
  {
    var ps := [Piece(" ", span)];
    assert ps[1..] == [];
    var x := " " + (Placeholder(0) + "");
    assert Render(ps, "", 0) == x;
    var m := ThawMatchAt(x, 0);
    PlaceholderMatch(0, "");
    ThawMatchShift(" ", Placeholder(0) + "", 0);
    assert m == ThawMatchAt(x, 1);
    assert x[m.w..m.t] == Key(0) by {
      SliceShift(" ", Placeholder(0) + "", 1, 1 + |Key(0)|);
    }
    assert x[m.e..] == [];
    ThawTextHead(x, m, KeyMap([span]));
    assert KeyMap([span]) == map[Key(0) := span] by {
      assert [span][..0] == [];
    }
  }
}
