/**
 * isValidTranslationResult: the test every attempt result must pass before it is
 * returned to the game or stored in a client's history.
 */
module Validation {
  import opened Text

  const ErrorPrefix: string := "Error"
  const FailedZh: string := "翻译失败"
  const FailedEn: string := "translation failed"

  /** A result is usable when it is non-empty, does not start with "Error" in any letter
      case, and mentions neither failure phrase in any letter case. The final length
      test of the source is kept although the first conjunct already implies it. */
  predicate IsValid(r: string) {
    r != []
    && !OccursAt(r, 0, ErrorPrefix, true)
    && !Contains(r, FailedZh, true)
    && !Contains(r, FailedEn, true)
    && |r| > 0
  }

  /** An occurrence anywhere makes Contains true. */
  lemma ContainsAt(s: string, i: nat, needle: string, ci: bool)
    requires OccursAt(s, i, needle, ci)
    ensures Contains(s, needle, ci)
  {
    IndexOfFirst(s, needle, 0, ci);
  }

  /** The needle itself occurs wherever it is spliced in. */
  lemma SplicedOccurs(a: string, m: string, b: string, ci: bool)
    ensures OccursAt(a + m + b, |a|, m, ci)
  {
    forall k | 0 <= k < |m| ensures SameChar((a + m + b)[|a| + k], m[k], ci) {
      assert (a + m + b)[|a| + k] == m[k];
    }
  }

  /** A result that is empty is rejected. */
  lemma EmptyInvalid()
    ensures !IsValid([])
  {
  }

  /** A reply that starts with "Error", "ERROR", "error" or any other letter-case variant
      is rejected, whatever follows it. */
  lemma ErrorReplyInvalid(head: string, rest: string)
    requires |head| == |ErrorPrefix|
    requires forall k :: 0 <= k < |head| ==> Fold(head[k]) == Fold(ErrorPrefix[k])
    ensures !IsValid(head + rest)
  {
    assert OccursAt(head + rest, 0, ErrorPrefix, true) by {
      forall k | 0 <= k < |ErrorPrefix| ensures SameChar((head + rest)[k], ErrorPrefix[k], true) {
        assert (head + rest)[k] == head[k];
      }
    }
  }

  /** A result that contains either failure phrase anywhere is rejected; the English
      phrase in any letter case. */
  lemma FailurePhraseInvalid(before: string, phrase: string, after: string)
    requires |phrase| == |FailedEn|
    requires forall k :: 0 <= k < |phrase| ==> Fold(phrase[k]) == Fold(FailedEn[k])
    ensures !IsValid(before + phrase + after)
    ensures !IsValid(before + FailedZh + after)
  {
    var s := before + phrase + after;
    assert OccursAt(s, |before|, FailedEn, true) by {
      forall k | 0 <= k < |FailedEn| ensures SameChar(s[|before| + k], FailedEn[k], true) {
        assert s[|before| + k] == phrase[k];
      }
    }
    ContainsAt(s, |before|, FailedEn, true);
    SplicedOccurs(before, FailedZh, after, true);
    ContainsAt(before + FailedZh + after, |before|, FailedZh, true);
  }

  /** Conversely, a non-empty text that does not start with "Error" and in which neither
      phrase occurs at any position is accepted. */
  lemma CleanTextValid(r: string)
    requires r != []
    requires !OccursAt(r, 0, ErrorPrefix, true)
    requires forall i :: 0 <= i <= |r| ==> !OccursAt(r, i, FailedZh, true) && !OccursAt(r, i, FailedEn, true)
    ensures IsValid(r)
  {
    IndexOfFirst(r, FailedZh, 0, true);
    IndexOfFirst(r, FailedEn, 0, true);
  }
}
