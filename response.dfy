/**
 * Post-processing of a model reply: the `<think>` blocks are dropped, the `<tm>k=v</tm>`
 * term suggestions are harvested and removed, the translation is taken from the first
 * `<tl>…</tl>` pair (or the whole text) and stray `<tl>` markers are dropped.
 *
 * The three regular expressions are written out as scanners. All three are compiled
 * with dot-matches-everything, so `.*?` may cross lines; `\s` is IsRegexSpace.
 */
module Response {
  import opened Text

  const ThinkOpen: string := "<think>"
  const ThinkClose: string := "</think>"
  const TmOpen: string := "<tm>"
  const TmClose: string := "</tm>"
  const TlOpen: string := "<tl>"
  const TlClose: string := "</tl>"

  // ---------------------------------------------------------------------------
  // <think>.*?</think>
  // ---------------------------------------------------------------------------

  /** The end of the match starting at `p` ("<think>" there, up to the first "</think>"
      after it), or `p` itself when there is none. */
  function ThinkEnd(s: string, p: nat): (e: nat)
    requires p <= |s|
    ensures e == p || p + |ThinkOpen| + |ThinkClose| <= e <= |s|
  {
    if !OccursAt(s, p, ThinkOpen, false) then p
    else
      var q := IndexOf(s, ThinkClose, p + |ThinkOpen|, false);
      if q.None? then p else q.value + |ThinkClose|
  }

  lemma ThinkEndShift(a: string, b: string, j: nat)
    requires j <= |b|
    ensures ThinkEnd(a + b, |a| + j) == |a| + ThinkEnd(b, j)
  {
    OccursAtShift(a, b, j, ThinkOpen, false);
    IndexOfShift(a, b, ThinkClose, j + |ThinkOpen|, false);
  }

  // ---------------------------------------------------------------------------
  // <tm>\s*(.*?)\s*=\s*(.*?)\s*</tm>
  // ---------------------------------------------------------------------------

  /** Where the greedy `\s*` started at `i` stops. */
  function SpaceEnd(s: string, i: nat): (j: nat)
    requires i <= |s|
    decreases |s| - i
    ensures i <= j <= |s|
  {
    if i == |s| || !IsRegexSpace(s[i]) then i else SpaceEnd(s, i + 1)
  }

  /** One `<tm>` match: the spans of the two groups and the end of the match. */
  datatype TmMatch = NoTm | Tm(keyStart: nat, keyEnd: nat, valueStart: nat, valueEnd: nat, end: nat)

  predicate HitIn(s: string, h: TmMatch) {
    h.Tm? && h.keyStart <= h.keyEnd <= h.valueStart <= h.valueEnd <= h.end <= |s|
  }

  /** The lazy second group, started at `v0`, tried at length `h - v0` and longer: it
      stops at the first `h` whose whitespace run is followed by "</tm>". */
  function ValueFrom(s: string, k0: nat, g: nat, v0: nat, h: nat): (r: TmMatch)
    requires k0 <= g < v0 <= h <= |s|
    decreases |s| - h
    ensures r.Tm? ==> HitIn(s, r) && r.keyStart == k0 && r.keyEnd < r.valueStart
  {
    if OccursAt(s, SpaceEnd(s, h), TmClose, false) then Tm(k0, g, v0, h, SpaceEnd(s, h) + |TmClose|)
    else if h == |s| then NoTm
    else ValueFrom(s, k0, g, v0, h + 1)
  }

  /** The lazy first group, started at `k0`, tried at length `g - k0` and longer: it
      stops at the first `g` whose whitespace run is followed by '='. If no "</tm>"
      follows that '=', none follows a later one either, so the match fails there.
      Backtracking into the leading `\s*` cannot help, since every shorter start sees
      the same candidates. */
  function KeyFrom(s: string, k0: nat, g: nat): (r: TmMatch)
    requires k0 <= g <= |s|
    decreases |s| - g
    ensures r.Tm? ==> HitIn(s, r) && r.keyStart == k0 && r.keyEnd < r.valueStart
  {
    var e := SpaceEnd(s, g);
    if e < |s| && s[e] == '=' then
      var v0 := SpaceEnd(s, e + 1);
      ValueFrom(s, k0, g, v0, v0)
    else if g == |s| then NoTm
    else KeyFrom(s, k0, g + 1)
  }

  /** The match starting at `p`, if any. */
  function TmAt(s: string, p: nat): (r: TmMatch)
    requires p <= |s|
    ensures r.Tm? ==> HitIn(s, r) && p + |TmOpen| <= r.keyStart && p < r.end
  {
    if !OccursAt(s, p, TmOpen, false) then NoTm
    else KeyFrom(s, SpaceEnd(s, p + |TmOpen|), SpaceEnd(s, p + |TmOpen|))
  }

  // ---------------------------------------------------------------------------
  // Removing every match (QString::remove with a regular expression)
  // ---------------------------------------------------------------------------

  /** A table of match ends over `s`: `ends[i]` is where the match that starts at `i`
      ends, or `i` itself when none starts there (a match is never empty). */
  predicate EndTable(s: string, ends: seq<nat>) {
    |ends| == |s| && forall i :: 0 <= i < |s| ==> i <= ends[i] <= |s|
  }

  /** The text from `p` on with every match of the left-to-right scan dropped, the scan
      resuming at the end of each match, and every other character kept. */
  function Cut(s: string, ends: seq<nat>, p: nat): (r: string)
    requires EndTable(s, ends) && p <= |s|
    decreases |s| - p
    ensures |r| <= |s| - p
  {
    if p == |s| then []
    else if ends[p] > p then Cut(s, ends, ends[p])
    else [s[p]] + Cut(s, ends, p + 1)
  }

  /** Removal in the second part of a concatenation, when the matches there are those
      of the second part alone. */
  lemma {:induction false} CutShift(a: string, b: string, ea: seq<nat>, eb: seq<nat>, j: nat)
    requires EndTable(a + b, ea) && EndTable(b, eb) && j <= |b|
    requires forall i :: 0 <= i < |b| ==> ea[|a| + i] == |a| + eb[i]
    decreases |b| - j
    ensures Cut(a + b, ea, |a| + j) == Cut(b, eb, j)
  {
    if j < |b| {
      assert ea[|a| + j] == |a| + eb[j];
      if eb[j] > j {
        CutShift(a, b, ea, eb, eb[j]);
      } else {
        assert (a + b)[|a| + j] == b[j];
        CutShift(a, b, ea, eb, j + 1);
      }
    }
  }

  /** Where no match starts, the characters are kept as they are. */
  lemma {:induction false} CutCopy(s: string, ends: seq<nat>, p: nat, q: nat)
    requires EndTable(s, ends) && p <= q <= |s|
    requires forall k :: p <= k < q ==> ends[k] == k
    decreases q - p
    ensures Cut(s, ends, p) == s[p..q] + Cut(s, ends, q)
  {
    if p < q {
      CutCopy(s, ends, p + 1, q);
      ConsSlice(s, p, q);
    }
  }

  /** A text in which no match starts is left unchanged. */
  lemma CutNothing(s: string, ends: seq<nat>)
    requires EndTable(s, ends)
    requires forall k :: 0 <= k < |s| ==> ends[k] == k
    ensures Cut(s, ends, 0) == s
  {
    CutCopy(s, ends, 0, |s|);
  }

  /** A text whose first match starts at `m` of its first part `d` and ends with `d`,
      followed by a part whose matches are its own, keeps what lies before `m` and what
      the removal keeps of the second part. */
  lemma CutBlock(d: string, c: string, ends: seq<nat>, ec: seq<nat>, m: nat)
    requires EndTable(d + c, ends) && EndTable(c, ec) && m < |d|
    requires forall k :: 0 <= k < m ==> ends[k] == k
    requires ends[m] == |d|
    requires forall i :: 0 <= i < |c| ==> ends[|d| + i] == |d| + ec[i]
    ensures Cut(d + c, ends, 0) == (d + c)[..m] + Cut(c, ec, 0)
  {
    CutCopy(d + c, ends, 0, m);
    CutShift(d, c, ends, ec, 0);
  }

  /** The `<think>` match ends. */
  function ThinkEnds(s: string): (t: seq<nat>)
    ensures EndTable(s, t)
  {
    seq(|s|, i requires 0 <= i < |s| => ThinkEnd(s, i))
  }

  /** In the second part of a concatenation, the `<think>` matches are those of the
      second part alone. */
  lemma ThinkEndsShift(a: string, b: string)
    ensures forall i :: 0 <= i < |b| ==> ThinkEnds(a + b)[|a| + i] == |a| + ThinkEnds(b)[i]
  {
    forall i | 0 <= i < |b| ensures ThinkEnds(a + b)[|a| + i] == |a| + ThinkEnds(b)[i] {
      ThinkEndShift(a, b, i);
    }
  }

  /** The `<think>` removal. */
  function StripThink(s: string): string {
    Cut(s, ThinkEnds(s), 0)
  }

  /** A reply without "<think>" passes through unchanged. */
  lemma NoThinkUnchanged(s: string)
    requires forall k :: 0 <= k < |s| ==> !OccursAt(s, k, ThinkOpen, false)
    ensures StripThink(s) == s
  {
    CutNothing(s, ThinkEnds(s));
  }

  /** In `a <think>b</think> c`, where the block is the first "<think>" and `b` holds no
      "</think>", no match starts in `a` and the one at the block ends after it. */
  lemma ThinkBlockEnds(s: string, a: string, b: string, c: string)
    requires s == a + ThinkOpen + b + ThinkClose + c
    requires forall k :: 0 <= k < |a| ==> !OccursAt(s, k, ThinkOpen, false)
    requires forall k :: |a| + |ThinkOpen| <= k < |a| + |ThinkOpen| + |b| ==> !OccursAt(s, k, ThinkClose, false)
    ensures forall k :: 0 <= k < |a| ==> ThinkEnds(s)[k] == k
    ensures ThinkEnds(s)[|a|] == |a| + |ThinkOpen| + |b| + |ThinkClose|
  {
    assert OccursAt(s, |a|, ThinkOpen, false) by {
      assert s[|a|..|a| + |ThinkOpen|] == ThinkOpen;
    }
    var q := |a| + |ThinkOpen| + |b|;
    assert OccursAt(s, q, ThinkClose, false) by {
      assert s[q..q + |ThinkClose|] == ThinkClose;
    }
    IndexOfAt(s, ThinkClose, |a| + |ThinkOpen|, q, false);
  }

  /** A reply `a <think>b</think> c`, where the block is the first "<think>" and `b` holds
      no "</think>", loses the block and only the block: what follows it is processed
      as if it stood alone. */
  lemma ThinkBlockDropped(s: string, a: string, b: string, c: string)
    requires s == a + ThinkOpen + b + ThinkClose + c
    requires forall k :: 0 <= k < |a| ==> !OccursAt(s, k, ThinkOpen, false)
    requires forall k :: |a| + |ThinkOpen| <= k < |a| + |ThinkOpen| + |b| ==> !OccursAt(s, k, ThinkClose, false)
    ensures StripThink(s) == a + StripThink(c)
  {
    var d := a + ThinkOpen + b + ThinkClose;
    ThinkBlockEnds(s, a, b, c);
    assert s == d + c && s[..|a|] == a;
    ThinkEndsShift(d, c);
    CutBlock(d, c, ThinkEnds(s), ThinkEnds(c), |a|);
  }

  // ---------------------------------------------------------------------------
  // Harvesting <tm> suggestions
  // ---------------------------------------------------------------------------

  /** The matches of the global `<tm>` scan from `p`, left to right, each match resuming
      the scan where the previous one ended. */
  function TmHits(s: string, p: nat): (r: seq<TmMatch>)
    requires p <= |s|
    decreases |s| - p
    ensures forall j :: 0 <= j < |r| ==> HitIn(s, r[j])
  {
    if p == |s| then []
    else
      var h := TmAt(s, p);
      if h.Tm? then [h] + TmHits(s, h.end) else TmHits(s, p + 1)
  }

  /** The trimmed captures of one match: the source term and its suggested translation. */
  function Candidate(s: string, h: TmMatch): (string, string)
    requires HitIn(s, h)
  {
    (Trim(s[h.keyStart..h.keyEnd]), Trim(s[h.valueStart..h.valueEnd]))
  }

  /** `\[T_\d+\]` matches at `i`: a placeholder key. */
  predicate TokenTagAt(s: string, i: nat) {
    i + 3 <= |s| && s[i] == '[' && s[i + 1] == 'T' && s[i + 2] == '_'
    && var d := RunEnd(IsDigit, s, i + 3); i + 3 < d < |s| && s[d] == ']'
  }

  predicate HasTokenTag(s: string) {
    exists i :: 0 <= i < |s| && TokenTagAt(s, i)
  }

  /** `Z[A-Z]{2}Z` matches at `i`: a glossary term code. */
  predicate TermCodeAt(s: string, i: nat) {
    i + 4 <= |s| && s[i] == 'Z' && 'A' <= s[i + 1] <= 'Z' && 'A' <= s[i + 2] <= 'Z' && s[i + 3] == 'Z'
  }

  predicate HasTermCode(s: string) {
    exists i :: 0 <= i < |s| && TermCodeAt(s, i)
  }

  /** The filter a suggestion must pass before it is added to the glossary. */
  predicate Acceptable(t: (string, string), processed: string) {
    t.0 != [] && t.1 != []
    && !HasTokenTag(t.0) && !HasTokenTag(t.1)
    && !HasTermCode(t.0) && !HasTermCode(t.1)
    && Contains(processed, t.0, true)
  }

  /** The accepted suggestions of `hits`, in order. */
  function Accepted(s: string, hits: seq<TmMatch>, processed: string): seq<(string, string)>
    requires forall j :: 0 <= j < |hits| ==> HitIn(s, hits[j])
  {
    if hits == [] then []
    else
      var t := Candidate(s, hits[0]);
      (if Acceptable(t, processed) then [t] else []) + Accepted(s, hits[1..], processed)
  }

  /** Every harvested suggestion passes the filter. */
  lemma {:induction false} AcceptedPass(s: string, hits: seq<TmMatch>, processed: string)
    requires forall j :: 0 <= j < |hits| ==> HitIn(s, hits[j])
    ensures forall t :: t in Accepted(s, hits, processed) ==> Acceptable(t, processed)
  {
    if hits != [] {
      AcceptedPass(s, hits[1..], processed);
    }
  }

  /** Every harvested suggestion is the capture pair of a match. */
  lemma {:induction false} AcceptedFromHits(s: string, hits: seq<TmMatch>, processed: string)
    requires forall j :: 0 <= j < |hits| ==> HitIn(s, hits[j])
    ensures forall t :: t in Accepted(s, hits, processed) ==> exists j :: 0 <= j < |hits| && Candidate(s, hits[j]) == t
  {
    if hits != [] {
      AcceptedFromHits(s, hits[1..], processed);
      forall t | t in Accepted(s, hits, processed) ensures exists j :: 0 <= j < |hits| && Candidate(s, hits[j]) == t {
        if t !in Accepted(s, hits[1..], processed) {
          assert Candidate(s, hits[0]) == t;
        } else {
          var j :| 0 <= j < |hits[1..]| && Candidate(s, hits[1..][j]) == t;
          assert hits[1..][j] == hits[j + 1];
        }
      }
    }
  }

  /** Every capture pair of a match that passes the filter is harvested. */
  lemma {:induction false} HitsAccepted(s: string, hits: seq<TmMatch>, processed: string)
    requires forall j :: 0 <= j < |hits| ==> HitIn(s, hits[j])
    ensures forall j :: 0 <= j < |hits| && Acceptable(Candidate(s, hits[j]), processed) ==>
              Candidate(s, hits[j]) in Accepted(s, hits, processed)
  {
    if hits != [] {
      HitsAccepted(s, hits[1..], processed);
      var rest := Accepted(s, hits[1..], processed);
      assert forall t :: t in rest ==> t in Accepted(s, hits, processed);
      forall j | 0 < j < |hits| && Acceptable(Candidate(s, hits[j]), processed)
        ensures Candidate(s, hits[j]) in Accepted(s, hits, processed)
      {
        assert hits[1..][j - 1] == hits[j];
        assert Candidate(s, hits[j]) in rest;
      }
    }
  }

  /** A suggestion is harvested exactly when it is the capture pair of some match and it
      passes the filter. */
  lemma AcceptedExactly(s: string, hits: seq<TmMatch>, processed: string)
    requires forall j :: 0 <= j < |hits| ==> HitIn(s, hits[j])
    ensures forall t :: t in Accepted(s, hits, processed) ==> Acceptable(t, processed)
    ensures forall t :: t in Accepted(s, hits, processed) ==> exists j :: 0 <= j < |hits| && Candidate(s, hits[j]) == t
    ensures forall j :: 0 <= j < |hits| && Acceptable(Candidate(s, hits[j]), processed) ==>
              Candidate(s, hits[j]) in Accepted(s, hits, processed)
  {
    AcceptedPass(s, hits, processed);
    AcceptedFromHits(s, hits, processed);
    HitsAccepted(s, hits, processed);
  }

  lemma AcceptedUnfold(s: string, hits: seq<TmMatch>, j: nat, processed: string)
    requires j < |hits|
    requires forall i :: 0 <= i < |hits| ==> HitIn(s, hits[i])
    ensures Accepted(s, hits[j..], processed) ==
              (if Acceptable(Candidate(s, hits[j]), processed) then [Candidate(s, hits[j])] else [])
              + Accepted(s, hits[j + 1..], processed)
  {
    assert hits[j..][0] == hits[j];
    assert hits[j..][1..] == hits[j + 1..];
  }

  /** The harvest so far followed by what the remaining matches yield is the whole
      harvest. */
  predicate HarvestedUpTo(s: string, hits: seq<TmMatch>, j: nat, terms: seq<(string, string)>, processed: string)
    requires j <= |hits|
    requires forall i :: 0 <= i < |hits| ==> HitIn(s, hits[i])
  {
    terms + Accepted(s, hits[j..], processed) == Accepted(s, hits, processed)
  }

  /** A suggestion the filter rejects adds nothing. */
  lemma HarvestSkip(s: string, hits: seq<TmMatch>, j: nat, terms: seq<(string, string)>, processed: string)
    requires j < |hits|
    requires forall i :: 0 <= i < |hits| ==> HitIn(s, hits[i])
    requires HarvestedUpTo(s, hits, j, terms, processed)
    requires !Acceptable(Candidate(s, hits[j]), processed)
    ensures HarvestedUpTo(s, hits, j + 1, terms, processed)
  {
    AcceptedUnfold(s, hits, j, processed);
    assert [] + Accepted(s, hits[j + 1..], processed) == Accepted(s, hits[j + 1..], processed);
  }

  /** A suggestion the filter accepts is appended. */
  lemma HarvestTake(s: string, hits: seq<TmMatch>, j: nat, terms: seq<(string, string)>, processed: string)
    requires j < |hits|
    requires forall i :: 0 <= i < |hits| ==> HitIn(s, hits[i])
    requires HarvestedUpTo(s, hits, j, terms, processed)
    requires Acceptable(Candidate(s, hits[j]), processed)
    ensures HarvestedUpTo(s, hits, j + 1, terms + [Candidate(s, hits[j])], processed)
  {
    AcceptedUnfold(s, hits, j, processed);
    Assoc(terms, [Candidate(s, hits[j])], Accepted(s, hits[j + 1..], processed));
  }

  /** The `globalMatch` loop: every accepted suggestion, in match order; the server adds
      each of them to the glossary. */
  method HarvestTerms(content: string, processed: string) returns (terms: seq<(string, string)>)
    ensures terms == Accepted(content, TmHits(content, 0), processed)
  {
    var hits := TmHits(content, 0);
    terms := [];
    assert hits[0..] == hits;
    for j := 0 to |hits|
      invariant HarvestedUpTo(content, hits, j, terms, processed)
    {
      var t := Candidate(content, hits[j]);
      if t.0 == [] || t.1 == [] {
        HarvestSkip(content, hits, j, terms, processed);
        continue;
      }
      if HasTokenTag(t.0) || HasTokenTag(t.1) {
        HarvestSkip(content, hits, j, terms, processed);
        continue;
      }
      if HasTermCode(t.0) || HasTermCode(t.1) {
        HarvestSkip(content, hits, j, terms, processed);
        continue;
      }
      if !Contains(processed, t.0, true) {
        HarvestSkip(content, hits, j, terms, processed);
        continue;
      }
      HarvestTake(content, hits, j, terms, processed);
      terms := terms + [t];
    }
    assert hits[|hits|..] == [];
    assert terms + [] == terms;
  }

  /** The `<tm>` match ends. */
  function TmEnds(s: string): (t: seq<nat>)
    ensures EndTable(s, t)
  {
    seq(|s|, i requires 0 <= i < |s| => var h := TmAt(s, i); if h.Tm? then h.end else i)
  }

  /** The `<tm>` removal. */
  function RemoveTerms(s: string): string {
    Cut(s, TmEnds(s), 0)
  }

  /** A whitespace run cannot pass a character that is not whitespace. */
  lemma {:induction false} SpaceEndBefore(s: string, x: nat, y: nat)
    requires x <= y < |s| && !IsRegexSpace(s[y])
    decreases y - x
    ensures SpaceEnd(s, x) <= y
  {
    if x < y && IsRegexSpace(s[x]) {
      SpaceEndBefore(s, x + 1, y);
    }
  }

  /** KeyFrom skips every position whose whitespace run is not followed by '='. */
  lemma {:induction false} KeyFromReach(s: string, k0: nat, g: nat, target: nat)
    requires k0 <= g <= target < |s| && s[target] == '=' && SpaceEnd(s, target) == target
    requires forall x :: g <= x < target ==> SpaceEnd(s, x) < |s| && s[SpaceEnd(s, x)] != '='
    decreases target - g
    ensures KeyFrom(s, k0, g) == ValueFrom(s, k0, target, SpaceEnd(s, target + 1), SpaceEnd(s, target + 1))
  {
    if g < target {
      KeyFromReach(s, k0, g + 1, target);
    }
  }

  /** ValueFrom skips every position whose whitespace run is not followed by "</tm>". */
  lemma {:induction false} ValueFromReach(s: string, k0: nat, g: nat, v0: nat, h: nat, target: nat)
    requires k0 <= g < v0 <= h <= target <= |s| && OccursAt(s, target, TmClose, false) && SpaceEnd(s, target) == target
    requires forall x :: h <= x < target ==> SpaceEnd(s, x) < |s| && s[SpaceEnd(s, x)] != '<'
    decreases target - h
    ensures ValueFrom(s, k0, g, v0, h) == Tm(k0, g, v0, target, target + |TmClose|)
  {
    if h < target {
      assert TmClose[0] == '<';
      MissAt(s, SpaceEnd(s, h), TmClose, false);
      ValueFromReach(s, k0, g, v0, h + 1, target);
    }
  }

  /** A text that does not start or end in whitespace. */
  predicate Tight(x: string) {
    x != [] && !IsSpace(x[0]) && !IsSpace(x[|x| - 1])
  }

  /** Inside a tight stretch of `s` from `lo` to `hi`, every whitespace run ends on a
      character of the stretch. */
  lemma TightRuns(s: string, lo: nat, hi: nat)
    requires lo < hi <= |s| && !IsSpace(s[lo]) && !IsSpace(s[hi - 1])
    ensures forall x :: lo <= x < hi ==> SpaceEnd(s, x) < hi
  {
    forall x | lo <= x < hi ensures SpaceEnd(s, x) < hi {
      SpaceEndBefore(s, x, hi - 1);
    }
  }

  /** A first group that starts on a non-space at `lo` and ends on a non-space right
      before the first '=' at `e` stops at that '='. */
  lemma KeyStopsAtEquals(s: string, lo: nat, e: nat)
    requires lo < e < |s| && s[e] == '=' && !IsSpace(s[lo]) && !IsSpace(s[e - 1])
    requires forall i :: lo <= i < e ==> s[i] != '='
    ensures KeyFrom(s, lo, lo) == ValueFrom(s, lo, e, SpaceEnd(s, e + 1), SpaceEnd(s, e + 1))
  {
    TightRuns(s, lo, e);
    assert SpaceEnd(s, e) == e;
    KeyFromReach(s, lo, lo, e);
  }

  /** A second group that starts on a non-space at `v0` and ends on a non-space right
      before the first '<' at `ve`, where "</tm>" stands, stops there. */
  lemma ValueStopsAtClose(s: string, lo: nat, e: nat, v0: nat, ve: nat)
    requires lo <= e < v0 < ve && OccursAt(s, ve, TmClose, false)
    requires !IsSpace(s[v0]) && !IsSpace(s[ve - 1])
    requires forall i :: v0 <= i < ve ==> s[i] != '<'
    ensures ValueFrom(s, lo, e, v0, v0) == Tm(lo, e, v0, ve, ve + |TmClose|)
  {
    TightRuns(s, v0, ve);
    assert TmClose[0] == '<';
    assert SpaceEnd(s, ve) == ve;
    ValueFromReach(s, lo, e, v0, v0, ve);
  }

  /** "<tm>" at 0, a first group on `[4, e)` that holds no '=', the '=' at `e`, a second
      group on `[e + 1, ve)` that holds no '<', and "</tm>" at `ve`, with both groups
      starting and ending on non-spaces: the match has exactly these groups. */
  lemma TmGroupsAt(s: string, e: nat, ve: nat)
    requires OccursAt(s, 0, TmOpen, false) && OccursAt(s, ve, TmClose, false)
    requires 4 < e && e + 1 < ve && s[e] == '='
    requires !IsSpace(s[4]) && !IsSpace(s[e - 1]) && !IsSpace(s[e + 1]) && !IsSpace(s[ve - 1])
    requires forall i :: 4 <= i < e ==> s[i] != '='
    requires forall i :: e + 1 <= i < ve ==> s[i] != '<'
    ensures TmAt(s, 0) == Tm(4, e, e + 1, ve, ve + |TmClose|)
  {
    assert SpaceEnd(s, 4) == 4;
    KeyStopsAtEquals(s, 4, e);
    assert SpaceEnd(s, e + 1) == e + 1;
    ValueStopsAtClose(s, 4, e, e + 1, ve);
  }

  /** Where the pieces of `<tm>k=v</tm>rest` lie. */
  lemma TmLayout(s: string, k: string, v: string, rest: string)
    requires s == TmOpen + k + "=" + v + TmClose + rest
    ensures |s| == 10 + |k| + |v| + |rest|
    ensures s[..4] == TmOpen && s[4..4 + |k|] == k && s[4 + |k|] == '='
    ensures s[5 + |k|..5 + |k| + |v|] == v && s[5 + |k| + |v|..10 + |k| + |v|] == TmClose
  {
  }

  /** A character that a slice avoids is absent from that stretch of the text. */
  lemma SliceAvoids(s: string, lo: nat, hi: nat, x: string, c: char)
    requires lo <= hi <= |s| && s[lo..hi] == x
    requires forall i :: 0 <= i < |x| ==> x[i] != c
    ensures forall i :: lo <= i < hi ==> s[i] != c
  {
    forall i | lo <= i < hi ensures s[i] != c {
      assert s[i] == x[i - lo];
    }
  }

  /** The match of a text laid out as `<tm>k=v</tm>…`, in terms of its slices. */
  lemma TmSlicesAt(s: string, k: string, v: string)
    requires |s| >= 10 + |k| + |v|
    requires s[..4] == TmOpen && s[4..4 + |k|] == k && s[4 + |k|] == '='
    requires s[5 + |k|..5 + |k| + |v|] == v && s[5 + |k| + |v|..10 + |k| + |v|] == TmClose
    requires Tight(k) && Tight(v)
    requires forall i :: 0 <= i < |k| ==> k[i] != '='
    requires forall i :: 0 <= i < |v| ==> v[i] != '<'
    ensures TmAt(s, 0) == Tm(4, 4 + |k|, 5 + |k|, 5 + |k| + |v|, 10 + |k| + |v|)
  {
    var e := 4 + |k|;
    var ve := 5 + |k| + |v|;
    assert OccursAt(s, 0, TmOpen, false);
    assert OccursAt(s, ve, TmClose, false);
    SliceAvoids(s, 4, e, k, '=');
    SliceAvoids(s, e + 1, ve, v, '<');
    assert s[4] == k[0] && s[e - 1] == k[|k| - 1] && s[e + 1] == v[0] && s[ve - 1] == v[|v| - 1];
    TmGroupsAt(s, e, ve);
  }

  /** Groups that are tight texts are their own trimmed captures. */
  lemma TightCandidate(s: string, k: string, v: string)
    requires |s| >= 10 + |k| + |v|
    requires s[4..4 + |k|] == k && s[5 + |k|..5 + |k| + |v|] == v
    requires Tight(k) && Tight(v)
    ensures Candidate(s, Tm(4, 4 + |k|, 5 + |k|, 5 + |k| + |v|, 10 + |k| + |v|)) == (k, v)
  {
    TrimTight(k);
    TrimTight(v);
  }

  /** A suggestion written the way the prompt asks, `<tm>Src=Trgt</tm>`, with a term
      that holds no '=' and a translation that holds no '<', is matched with exactly
      the two texts as its groups. */
  lemma TmInstructionMatched(s: string, k: string, v: string, rest: string)
    requires s == TmOpen + k + "=" + v + TmClose + rest
    requires Tight(k) && Tight(v)
    requires forall i :: 0 <= i < |k| ==> k[i] != '='
    requires forall i :: 0 <= i < |v| ==> v[i] != '<'
    ensures TmAt(s, 0) == Tm(4, 4 + |k|, 5 + |k|, 5 + |k| + |v|, 10 + |k| + |v|)
    ensures Candidate(s, TmAt(s, 0)) == (k, v)
  {
    TmLayout(s, k, v, rest);
    TmSlicesAt(s, k, v);
    TightCandidate(s, k, v);
  }

  // ---------------------------------------------------------------------------
  // <tl>(.*?)</tl>: the translation
  // ---------------------------------------------------------------------------

  /** The first match: the leftmost "<tl>" that some later "</tl>" closes, and the span
      of its capture, up to the first such "</tl>". */
  datatype TlMatch = NoTl | Tl(start: nat, end: nat)

  function FirstTl(s: string, p: nat): (r: TlMatch)
    requires p <= |s|
    decreases |s| - p
    ensures r.Tl? ==> p + |TlOpen| <= r.start <= r.end <= |s|
  {
    if p == |s| then NoTl
    else
      var c := if OccursAt(s, p, TlOpen, false) then IndexOf(s, TlClose, p + |TlOpen|, false) else None;
      if c.Some? then Tl(p + |TlOpen|, c.value) else FirstTl(s, p + 1)
  }

  /** The trimmed capture of the first `<tl>` match, or else the whole trimmed text. */
  function PickTranslation(s: string): string {
    var m := FirstTl(s, 0);
    if m.Tl? then Trim(s[m.start..m.end]) else Trim(s)
  }

  lemma {:induction false} FirstTlNone(s: string, p: nat)
    requires p <= |s|
    requires forall k :: p <= k < |s| ==> !OccursAt(s, k, TlOpen, false)
    decreases |s| - p
    ensures FirstTl(s, p).NoTl?
  {
    if p < |s| {
      FirstTlNone(s, p + 1);
    }
  }

  /** Without a "<tl>" the whole reply, trimmed, is the translation. */
  lemma UntaggedReply(s: string)
    requires forall k :: 0 <= k < |s| ==> !OccursAt(s, k, TlOpen, false)
    ensures PickTranslation(s) == Trim(s)
  {
    FirstTlNone(s, 0);
  }

  lemma {:induction false} FirstTlSkip(s: string, p: nat, q: nat)
    requires p <= q <= |s|
    requires forall k :: p <= k < q ==> !OccursAt(s, k, TlOpen, false)
    decreases q - p
    ensures FirstTl(s, p) == FirstTl(s, q)
  {
    if p < q {
      FirstTlSkip(s, p + 1, q);
    }
  }

  /** The first match is the "<tl>" at `m` when none starts before it, and its capture
      runs up to the first "</tl>" after it. */
  lemma FirstTlAt(s: string, m: nat, q: nat)
    requires m + |TlOpen| <= q
    requires forall k :: 0 <= k < m ==> !OccursAt(s, k, TlOpen, false)
    requires OccursAt(s, m, TlOpen, false) && OccursAt(s, q, TlClose, false)
    requires forall k :: m + |TlOpen| <= k < q ==> !OccursAt(s, k, TlClose, false)
    ensures FirstTl(s, 0) == Tl(m + |TlOpen|, q)
    ensures PickTranslation(s) == Trim(s[m + |TlOpen|..q])
  {
    FirstTlSkip(s, 0, m);
    IndexOfAt(s, TlClose, m + |TlOpen|, q, false);
  }

  /** Where the pieces of `a <tl>x</tl> rest` lie. */
  lemma TlLayout(s: string, a: string, x: string, rest: string)
    requires s == a + TlOpen + x + TlClose + rest
    ensures var q := |a| + |TlOpen| + |x|;
      q + |TlClose| <= |s| && s[|a|..|a| + |TlOpen|] == TlOpen && s[|a| + |TlOpen|..q] == x
      && s[q..q + |TlClose|] == TlClose
  {
  }

  /** With `a <tl>x</tl> rest`, where this is the first "<tl>" and `x` holds no "</tl>",
      the translation is `x` trimmed, whatever `rest` holds. */
  lemma TaggedReply(s: string, a: string, x: string, rest: string)
    requires s == a + TlOpen + x + TlClose + rest
    requires forall k :: 0 <= k < |a| ==> !OccursAt(s, k, TlOpen, false)
    requires forall k :: |a| + |TlOpen| <= k < |a| + |TlOpen| + |x| ==> !OccursAt(s, k, TlClose, false)
    ensures PickTranslation(s) == Trim(x)
  {
    var q := |a| + |TlOpen| + |x|;
    assert OccursAt(s, |a|, TlOpen, false) && OccursAt(s, q, TlClose, false) && s[|a| + |TlOpen|..q] == x by {
      TlLayout(s, a, x, rest);
      SliceOccurs(s, |a|, TlOpen, false);
      SliceOccurs(s, q, TlClose, false);
    }
    FirstTlAt(s, |a|, q);
  }

  /** The two `remove(…, Qt::CaseInsensitive)` calls for stray markers. */
  function Unwrap(r: string): string {
    RemoveAll(RemoveAll(r, TlOpen, true), TlClose, true)
  }

  /** A translation without markers, in any letter case, is left as it is. */
  lemma UnwrapUnmarked(r: string)
    requires forall k :: 0 <= k < |r| ==> !OccursAt(r, k, TlOpen, true) && !OccursAt(r, k, TlClose, true)
    ensures Unwrap(r) == r
  {
    RemoveNone(r, TlOpen, true);
    RemoveNone(r, TlClose, true);
  }

  /** No marker starts where the text holds no '<'. */
  lemma NoMarkerAt(s: string, lo: nat, hi: nat)
    requires lo <= hi <= |s|
    requires forall k :: lo <= k < hi ==> s[k] != '<'
    ensures forall k :: lo <= k < hi ==> !OccursAt(s, k, TlOpen, true) && !OccursAt(s, k, TlClose, true)
  {
    assert TlOpen[0] == '<' && TlClose[0] == '<';
    forall k | lo <= k < hi ensures !OccursAt(s, k, TlOpen, true) && !OccursAt(s, k, TlClose, true) {
      MissAt(s, k, TlOpen, true);
      MissAt(s, k, TlClose, true);
    }
  }

  /** The '<'-free pieces around a "<tl>" marker, in a text `a + TlOpen + b`. */
  lemma MarkerLayout(a: string, b: string)
    requires forall k :: 0 <= k < |a| ==> a[k] != '<'
    requires forall k :: 0 <= k < |b| ==> b[k] != '<'
    ensures var s := a + TlOpen + b;
      |s| == |a| + 4 + |b| && s[..|a|] == a && s[|a|..|a| + 4] == TlOpen && s[|a| + 4..] == b
      && (forall k :: 0 <= k < |a| ==> s[k] != '<') && (forall k :: |a| + 4 <= k < |s| ==> s[k] != '<')
  {
    var s := a + TlOpen + b;
    assert forall k :: |a| + 4 <= k < |s| ==> s[k] == b[k - |a| - 4];
  }

  /** A "<tl>" marker, in a text that holds no other '<', is dropped and nothing else. */
  lemma UnwrapMarker(a: string, b: string)
    requires forall k :: 0 <= k < |a| ==> a[k] != '<'
    requires forall k :: 0 <= k < |b| ==> b[k] != '<'
    ensures Unwrap(a + TlOpen + b) == a + b
  {
    var s := a + TlOpen + b;
    MarkerLayout(a, b);
    NoMarkerAt(s, 0, |a|);
    NoMarkerAt(s, |a| + 4, |s|);
    SliceOccurs(s, |a|, TlOpen, true);
    RemoveOnce(s, TlOpen, true, |a|);
    var r := a + b;
    assert forall k :: 0 <= k < |r| ==> r[k] != '<';
    NoMarkerAt(r, 0, |r|);
    RemoveNone(r, TlClose, true);
  }

  // ---------------------------------------------------------------------------
  // The whole post-processing, up to thawing
  // ---------------------------------------------------------------------------

  /** The translation a reply yields before its placeholders are thawed: `<think>`
      blocks dropped, `<tm>` spans dropped when extraction is on, the `<tl>` capture
      or the whole text trimmed, stray markers dropped. */
  function Extract(raw: string, extraction: bool): (r: string)
    ensures |r| <= |raw|
  {
    var clean := StripThink(raw);
    var rest := if extraction then RemoveTerms(clean) else clean;
    Unwrap(PickTranslation(rest))
  }

  /** A reply that is plain text, with none of the tags, comes back trimmed. */
  lemma PlainReply(raw: string, extraction: bool)
    requires forall k :: 0 <= k < |raw| ==> raw[k] != '<'
    ensures Extract(raw, extraction) == Trim(raw)
  {
    assert ThinkOpen[0] == '<' && TmOpen[0] == '<' && TlOpen[0] == '<';
    forall k | 0 <= k < |raw|
      ensures ThinkEnds(raw)[k] == k && TmEnds(raw)[k] == k && !OccursAt(raw, k, TlOpen, false)
    {
      MissAt(raw, k, ThinkOpen, false);
      MissAt(raw, k, TmOpen, false);
      MissAt(raw, k, TlOpen, false);
    }
    CutNothing(raw, ThinkEnds(raw));
    CutNothing(raw, TmEnds(raw));
    UntaggedReply(raw);
    var t := Trim(raw);
    TrimInside(raw);
    UnwrapUnmarkedPlain(t);
  }

  /** Trimming keeps characters of the text only. */
  lemma TrimInside(s: string)
    ensures forall k :: 0 <= k < |Trim(s)| ==> Trim(s)[k] in s
  {
    TrimSlice(s);
    if Trim(s) != [] {
      forall k | 0 <= k < |Trim(s)| ensures Trim(s)[k] in s {
        assert Trim(s)[k] == s[SpacePrefix(s) + k];
      }
    }
  }

  /** Every character of a stretch of the text is a character of the text. */
  lemma SliceInside(s: string, a: nat, b: nat)
    requires a <= b <= |s|
    ensures forall x :: x in s[a..b] ==> x in s
  {
    forall x | x in s[a..b] ensures x in s {
      var i :| 0 <= i < b - a && s[a..b][i] == x;
      assert s[a + i] == x;
    }
  }

  /** The picked translation is no longer than the reply and holds only characters of
      it: trimming either the `<tl>` capture or the whole reply takes nothing from
      elsewhere. */
  lemma PickInside(s: string)
    ensures |PickTranslation(s)| <= |s|
    ensures forall k :: 0 <= k < |PickTranslation(s)| ==> PickTranslation(s)[k] in s
  {
    var m := FirstTl(s, 0);
    if m.Tl? {
      TrimInside(s[m.start..m.end]);
      SliceInside(s, m.start, m.end);
    } else {
      TrimInside(s);
    }
  }

  lemma UnwrapUnmarkedPlain(t: string)
    requires forall k :: 0 <= k < |t| ==> t[k] != '<'
    ensures Unwrap(t) == t
  {
    NoMarkerAt(t, 0, |t|);
    UnwrapUnmarked(t);
  }
}
