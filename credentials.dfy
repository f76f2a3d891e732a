/**
 * The credential pool: how updateConfig turns the configured `api_key` text into the
 * list of keys, and the round-robin order in which getNextApiKey hands them out.
 */
module Credentials {
  import opened Text

  /** The parts of `s` between separators, empty parts included (QString::split with
      Qt::KeepEmptyParts): a text with n separators has n + 1 parts. */
  function Fields(s: string, sep: char): (r: seq<string>)
    ensures |r| >= 1
  {
    if s == [] then [[]]
    else
      var rest := Fields(s[1..], sep);
      if s[0] == sep then [[]] + rest else [[s[0]] + rest[0]] + rest[1..]
  }

  /** The parts put back together with the separator between them. */
  function Join(parts: seq<string>, sep: char): string
    requires |parts| >= 1
  {
    if |parts| == 1 then parts[0] else parts[0] + [sep] + Join(parts[1..], sep)
  }

  predicate Free(part: string, sep: char) {
    forall i :: 0 <= i < |part| ==> part[i] != sep
  }

  /** No part holds the separator. */
  lemma {:induction false} FieldsFree(s: string, sep: char)
    ensures forall j :: 0 <= j < |Fields(s, sep)| ==> Free(Fields(s, sep)[j], sep)
  {
    if s != [] {
      FieldsFree(s[1..], sep);
      var rest := Fields(s[1..], sep);
      if s[0] != sep {
        assert Free([s[0]] + rest[0], sep) by {
          assert Free(rest[0], sep);
        }
        forall j | 0 < j < |Fields(s, sep)| ensures Free(Fields(s, sep)[j], sep) {
          assert Fields(s, sep)[j] == rest[j];
        }
      }
    }
  }

  lemma JoinHead(x: string, parts: seq<string>, sep: char)
    requires |parts| >= 1
    ensures Join([x + parts[0]] + parts[1..], sep) == x + Join(parts, sep)
  {
    var r := [x + parts[0]] + parts[1..];
    if |parts| > 1 {
      assert r[1..] == parts[1..];
    }
  }

  lemma JoinEmptyHead(rest: seq<string>, sep: char)
    requires |rest| >= 1
    ensures Join([[]] + rest, sep) == [sep] + Join(rest, sep)
  {
    assert ([[]] + rest)[1..] == rest;
  }

  /** Joining the parts gives the text back: splitting loses nothing. */
  lemma {:induction false} JoinFields(s: string, sep: char)
    ensures Join(Fields(s, sep), sep) == s
  {
    if s != [] {
      JoinFields(s[1..], sep);
      var rest := Fields(s[1..], sep);
      if s[0] == sep {
        JoinEmptyHead(rest, sep);
      } else {
        JoinHead([s[0]], rest, sep);
      }
      assert [s[0]] + s[1..] == s;
    }
  }

  /** A part that is not the last one is followed by a separator. */
  lemma {:induction false} FieldsOfJoinStep(p: string, rest: seq<string>, sep: char)
    requires |rest| >= 1 && Free(p, sep)
    requires Fields(Join(rest, sep), sep) == rest
    decreases |p|
    ensures Fields(p + [sep] + Join(rest, sep), sep) == [p] + rest
  {
    var s := p + [sep] + Join(rest, sep);
    if p == [] {
      assert s == [sep] + Join(rest, sep);
      assert s[1..] == Join(rest, sep);
    } else {
      FieldsOfJoinStep(p[1..], rest, sep);
      assert s[1..] == p[1..] + [sep] + Join(rest, sep);
      assert s[0] == p[0];
      assert [p[0]] + p[1..] == p;
    }
  }

  /** The last part runs to the end of the text. */
  lemma {:induction false} FieldsOfFree(p: string, sep: char)
    requires Free(p, sep)
    decreases |p|
    ensures Fields(p, sep) == [p]
  {
    if p != [] {
      FieldsOfFree(p[1..], sep);
      assert [p[0]] + p[1..] == p;
    }
  }

  /** Splitting a joined list gives the list back, when no part holds the separator. */
  lemma {:induction false} FieldsJoin(parts: seq<string>, sep: char)
    requires |parts| >= 1
    requires forall j :: 0 <= j < |parts| ==> Free(parts[j], sep)
    ensures Fields(Join(parts, sep), sep) == parts
  {
    if |parts| == 1 {
      FieldsOfFree(parts[0], sep);
    } else {
      FieldsJoin(parts[1..], sep);
      FieldsOfJoinStep(parts[0], parts[1..], sep);
      assert [parts[0]] + parts[1..] == parts;
    }
  }

  /** The non-empty parts, in order. */
  function NonEmpty(parts: seq<string>): (r: seq<string>)
  {
    if parts == [] then []
    else if parts[0] == [] then NonEmpty(parts[1..])
    else [parts[0]] + NonEmpty(parts[1..])
  }

  /** QString::split(sep, Qt::SkipEmptyParts). */
  function SplitSkipEmpty(s: string, sep: char): seq<string> {
    NonEmpty(Fields(s, sep))
  }

  /** NonEmpty keeps exactly the non-empty parts: each kept part is one of the parts,
      none is empty, and every non-empty part is kept. */
  lemma {:induction false} NonEmptyParts(parts: seq<string>)
    ensures forall x :: x in NonEmpty(parts) <==> x in parts && x != []
    ensures |NonEmpty(parts)| <= |parts|
  {
    if parts != [] {
      NonEmptyParts(parts[1..]);
      assert forall x :: x in parts <==> x == parts[0] || x in parts[1..];
    }
  }

  /** The parts of the comma list are non-empty, hold no separator, and every
      separator-free non-empty stretch between separators is one of them. */
  lemma SplitParts(s: string, sep: char)
    ensures forall x :: x in SplitSkipEmpty(s, sep) ==> x != [] && Free(x, sep)
    ensures forall x :: x in Fields(s, sep) && x != [] ==> x in SplitSkipEmpty(s, sep)
  {
    NonEmptyParts(Fields(s, sep));
    FieldsFree(s, sep);
  }

  /** The keys updateConfig stores: the non-empty comma-separated parts of `api_key`,
      each trimmed. A part made only of whitespace is kept, as "". */
  function ParseKeys(apiKey: string): (keys: seq<string>)
    ensures |keys| == |SplitSkipEmpty(apiKey, ',')|
    ensures forall j :: 0 <= j < |keys| ==> keys[j] == Trim(SplitSkipEmpty(apiKey, ',')[j])
  {
    var parts := SplitSkipEmpty(apiKey, ',');
    seq(|parts|, j requires 0 <= j < |parts| => Trim(parts[j]))
  }

  /** A key list built from comma-free, non-empty keys that do not start or end in
      whitespace is parsed back to exactly those keys. */
  lemma ParseJoinedKeys(keys: seq<string>)
    requires |keys| >= 1
    requires forall j :: 0 <= j < |keys| ==> keys[j] != [] && Free(keys[j], ',')
    requires forall j :: 0 <= j < |keys| ==> !IsSpace(keys[j][0]) && !IsSpace(keys[j][|keys[j]| - 1])
    ensures ParseKeys(Join(keys, ',')) == keys
  {
    FieldsJoin(keys, ',');
    NonEmptyAll(keys);
    forall j | 0 <= j < |keys| ensures Trim(keys[j]) == keys[j] {
      TrimPadded([], keys[j], []);
      assert [] + keys[j] + [] == keys[j];
    }
  }

  lemma {:induction false} NonEmptyAll(parts: seq<string>)
    requires forall j :: 0 <= j < |parts| ==> parts[j] != []
    ensures NonEmpty(parts) == parts
  {
    if parts != [] {
      NonEmptyAll(parts[1..]);
      assert [parts[0]] + parts[1..] == parts;
    }
  }

  /** A part of only whitespace survives the split and is trimmed to "". */
  lemma BlankKeyKept(apiKey: string, j: nat)
    requires j < |SplitSkipEmpty(apiKey, ',')|
    requires forall i :: 0 <= i < |SplitSkipEmpty(apiKey, ',')[j]| ==> IsSpace(SplitSkipEmpty(apiKey, ',')[j][i])
    ensures ParseKeys(apiKey)[j] == ""
  {
    TrimSpec(SplitSkipEmpty(apiKey, ',')[j]);
  }

  // ---------------------------------------------------------------------------
  // Round-robin rotation
  // ---------------------------------------------------------------------------

  /** getNextApiKey's cursor update over a pool of `n` keys. */
  function Advance(cursor: nat, n: nat): (r: nat)
    requires n > 0
    ensures r < n
  {
    (cursor + 1) % n
  }

  /** The cursor after `calls` consecutive calls. */
  function AdvanceN(cursor: nat, n: nat, calls: nat): (r: nat)
    requires n > 0
  {
    if calls == 0 then cursor else Advance(AdvanceN(cursor, n, calls - 1), n)
  }

  /** From a cursor inside the pool, one call moves to the next key, wrapping from the
      last key to the first. */
  lemma AdvanceStep(cursor: nat, n: nat)
    requires cursor < n
    ensures Advance(cursor, n) == if cursor + 1 < n then cursor + 1 else 0
  {
  }

  /** Within one lap, `calls` calls move the cursor `calls` places, wrapping once. */
  lemma {:induction false} AdvanceLap(cursor: nat, n: nat, calls: nat)
    requires cursor < n && calls <= n
    ensures AdvanceN(cursor, n, calls) == if cursor + calls < n then cursor + calls else cursor + calls - n
  {
    if calls > 0 {
      AdvanceLap(cursor, n, calls - 1);
      AdvanceStep(AdvanceN(cursor, n, calls - 1), n);
    }
  }

  /** Calls compose: a + b calls are a calls followed by b calls. */
  lemma {:induction false} AdvanceCompose(cursor: nat, n: nat, a: nat, b: nat)
    requires n > 0
    ensures AdvanceN(cursor, n, a + b) == AdvanceN(AdvanceN(cursor, n, a), n, b)
  {
    if b > 0 {
      AdvanceCompose(cursor, n, a, b - 1);
    }
  }

  /** The number of calls, fewer than n, after which the cursor reaches key `i`. */
  function Lag(cursor: nat, n: nat, i: nat): (j: nat)
    requires cursor < n && i < n
    ensures j < n
  {
    if i >= cursor then i - cursor else n - cursor + i
  }

  /** n consecutive calls serve every key of the pool exactly once and bring the cursor
      back where it started, so the rotation repeats with period n. */
  lemma RotationCovers(cursor: nat, n: nat)
    requires cursor < n
    ensures forall i :: 0 <= i < n ==> AdvanceN(cursor, n, Lag(cursor, n, i)) == i
    ensures forall j1, j2 :: 0 <= j1 < j2 < n ==> AdvanceN(cursor, n, j1) != AdvanceN(cursor, n, j2)
    ensures forall j :: AdvanceN(cursor, n, n + j) == AdvanceN(cursor, n, j)
  {
    forall i | 0 <= i < n ensures AdvanceN(cursor, n, Lag(cursor, n, i)) == i {
      AdvanceLap(cursor, n, Lag(cursor, n, i));
    }
    forall j1, j2 | 0 <= j1 < j2 < n ensures AdvanceN(cursor, n, j1) != AdvanceN(cursor, n, j2) {
      AdvanceLap(cursor, n, j1);
      AdvanceLap(cursor, n, j2);
    }
    AdvanceLap(cursor, n, n);
    forall j: nat ensures AdvanceN(cursor, n, n + j) == AdvanceN(cursor, n, j) {
      AdvanceCompose(cursor, n, n, j);
    }
  }
}
