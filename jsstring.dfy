/**
 * The three JavaScript string operations that the PEM stripper chains together:
 * `String.prototype.indexOf` (which a string-pattern `replace` uses to find its match),
 * `String.prototype.replace` with a string pattern (only the first match is replaced),
 * and `replace(/\s/g, "")` (every whitespace character is deleted).
 * Strings are sequences of characters; ECMAScript's UTF-16 code units are not modelled.
 */
module JsString {

  /** `p` occurs in `s` starting at index `i`. */
  predicate OccursAt(s: string, p: string, i: int) {
    0 <= i && i + |p| <= |s| && s[i..i + |p|] == p
  }

  /** `i` is the leftmost index at which `p` occurs in `s`. */
  ghost predicate IsFirstOccurrence(s: string, p: string, i: int) {
    OccursAt(s, p, i) && forall j :: 0 <= j < i ==> !OccursAt(s, p, j)
  }

  /** `p` occurs nowhere in `s`. */
  ghost predicate Absent(s: string, p: string) {
    forall j :: !OccursAt(s, p, j)
  }

  /** `s.indexOf(p, from)`: the leftmost occurrence of `p` at or after `from`, or -1. */
  function IndexOfFrom(s: string, p: string, from: nat): (r: int)
    requires from <= |s|
    ensures r == -1 || (from <= r && OccursAt(s, p, r))
    ensures r == -1 ==> forall j :: from <= j ==> !OccursAt(s, p, j)
    ensures forall j :: from <= j < r ==> !OccursAt(s, p, j)
    decreases |s| - from
  {
    if OccursAt(s, p, from) then from
    else if from == |s| then -1
    else IndexOfFrom(s, p, from + 1)
  }

  /** `s.indexOf(p)`: the leftmost occurrence of `p` in `s`, or -1 when there is none. */
  function IndexOf(s: string, p: string): (r: int)
    ensures r == -1 <==> Absent(s, p)
    ensures r != -1 ==> IsFirstOccurrence(s, p, r)
  {
    IndexOfFrom(s, p, 0)
  }

  /**
   * `s.replace(p, rep)` with a string pattern: the first occurrence of `p`
   * is replaced by `rep`; when `p` does not occur, `s` comes back unchanged.
   * The `$` patterns that JavaScript expands in a replacement string are not
   * modelled, so `rep` must not contain `$`.
   */
  function ReplaceFirst(s: string, p: string, rep: string): (r: string)
    requires '$' !in rep
    ensures Absent(s, p) ==> r == s
    ensures forall i :: IsFirstOccurrence(s, p, i) ==> r == s[..i] + rep + s[i + |p|..]
  {
    var i := IndexOf(s, p);
    if i == -1 then s
    else
      FirstOccurrenceUnique(s, p, i);
      s[..i] + rep + s[i + |p|..]
  }

  /** A mismatch at offset `k` rules out an occurrence at `j`. */
  lemma MismatchBlocksOccurrence(s: string, p: string, j: int, k: nat)
    requires k < |p| && (0 <= j && j + |p| <= |s| ==> s[j + k] != p[k])
    ensures !OccursAt(s, p, j)
  {
  }

  /** There is only one leftmost occurrence. */
  lemma FirstOccurrenceUnique(s: string, p: string, i: int)
    requires IsFirstOccurrence(s, p, i)
    ensures forall k :: IsFirstOccurrence(s, p, k) ==> k == i
  {
  }

  /**
   * The whitespace class `\s` of ECMAScript regular expressions: the WhiteSpace
   * characters (tab, vertical tab, form feed, the byte-order mark and every
   * space separator of Unicode category Zs) and the LineTerminator characters
   * (line feed, carriage return, line and paragraph separator).
   */
  predicate IsWhitespace(c: char) {
    || c == '\t' || c == '\n' || c == '\U{B}' || c == '\U{C}' || c == '\r'
    || c == ' ' || c == '\U{A0}' || c == '\U{1680}'
    || ('\U{2000}' <= c <= '\U{200A}')
    || c == '\U{2028}' || c == '\U{2029}' || c == '\U{202F}' || c == '\U{205F}'
    || c == '\U{3000}' || c == '\U{FEFF}'
  }

  predicate NoWhitespace(s: string) {
    forall i :: 0 <= i < |s| ==> !IsWhitespace(s[i])
  }

  predicate AllWhitespace(s: string) {
    forall i :: 0 <= i < |s| ==> IsWhitespace(s[i])
  }

  /** `s.replace(/\s/g, "")`: every whitespace character is deleted, the rest keep their order. */
  function RemoveWhitespace(s: string): (r: string)
    ensures NoWhitespace(r) && |r| <= |s|
  {
    if s == [] then []
    else if IsWhitespace(s[0]) then RemoveWhitespace(s[1..])
    else [s[0]] + RemoveWhitespace(s[1..])
  }

  /** Text without whitespace is left as it is. */
  lemma {:induction false} RemoveWhitespaceClean(s: string)
    requires NoWhitespace(s)
    ensures RemoveWhitespace(s) == s
  {
    if s != [] {
      RemoveWhitespaceClean(s[1..]);
    }
  }

  /** Text made of whitespace only disappears. */
  lemma {:induction false} RemoveWhitespaceBlank(s: string)
    requires AllWhitespace(s)
    ensures RemoveWhitespace(s) == []
  {
    if s != [] {
      RemoveWhitespaceBlank(s[1..]);
    }
  }

  /** What survives the deletion is exactly the non-whitespace characters of the input. */
  lemma {:induction false} RemoveWhitespaceKeeps(s: string, c: char)
    ensures c in RemoveWhitespace(s) <==> c in s && !IsWhitespace(c)
  {
    if s != [] {
      RemoveWhitespaceKeeps(s[1..], c);
      assert s == [s[0]] + s[1..];
    }
  }

  /** Deleting whitespace from a concatenation deletes it from each part. */
  lemma {:induction false} RemoveWhitespaceAppend(a: string, b: string)
    ensures RemoveWhitespace(a + b) == RemoveWhitespace(a) + RemoveWhitespace(b)
  {
    if a != [] {
      assert (a + b)[1..] == a[1..] + b;
      RemoveWhitespaceAppend(a[1..], b);
    } else {
      assert a + b == b;
    }
  }

  /** Inserting whitespace anywhere does not change what survives the deletion. */
  lemma InsertedWhitespaceVanishes(a: string, w: string, b: string)
    requires AllWhitespace(w)
    ensures RemoveWhitespace(a + w + b) == RemoveWhitespace(a + b)
  {
    RemoveWhitespaceAppend(a + w, b);
    RemoveWhitespaceAppend(a, w);
    RemoveWhitespaceBlank(w);
    RemoveWhitespaceAppend(a, b);
  }

  /** `a` can be obtained from `b` by deleting characters: nothing added, order kept. */
  predicate IsSubsequence(a: string, b: string)
    decreases |b|
  {
    || a == []
    || (b != [] && a[0] == b[0] && IsSubsequence(a[1..], b[1..]))
    || (b != [] && IsSubsequence(a, b[1..]))
  }

  lemma {:induction false} SubsequenceReflexive(s: string)
    ensures IsSubsequence(s, s)
  {
    if s != [] {
      SubsequenceReflexive(s[1..]);
    }
  }

  /** A subsequence of `b` stays one when `b` is extended on the left. */
  lemma {:induction false} SubsequenceExtendLeft(a: string, c: string, b: string)
    requires IsSubsequence(a, b)
    ensures IsSubsequence(a, c + b)
    decreases |c|
  {
    if c != [] {
      SubsequenceExtendLeft(a, c[1..], b);
      assert (c + b)[1..] == c[1..] + b;
    } else {
      assert c + b == b;
    }
  }

  /** Subsequences of the parts give a subsequence of the whole. */
  lemma {:induction false} SubsequenceAppend(a1: string, b1: string, a2: string, b2: string)
    requires IsSubsequence(a1, b1) && IsSubsequence(a2, b2)
    ensures IsSubsequence(a1 + a2, b1 + b2)
    decreases |b1|
  {
    if a1 == [] {
      assert a1 + a2 == a2;
      SubsequenceExtendLeft(a2, b1, b2);
    } else {
      assert (b1 + b2)[1..] == b1[1..] + b2;
      if a1[0] == b1[0] && IsSubsequence(a1[1..], b1[1..]) {
        assert (a1 + a2)[1..] == a1[1..] + a2;
        SubsequenceAppend(a1[1..], b1[1..], a2, b2);
      } else {
        SubsequenceAppend(a1, b1[1..], a2, b2);
      }
    }
  }

  /** Being a subsequence is transitive. */
  lemma {:induction false} SubsequenceTransitive(a: string, b: string, c: string)
    requires IsSubsequence(a, b) && IsSubsequence(b, c)
    ensures IsSubsequence(a, c)
    decreases |c|
  {
    if a != [] {
      if IsSubsequence(b, c[1..]) {
        SubsequenceTransitive(a, b, c[1..]);
      } else if a[0] == b[0] && IsSubsequence(a[1..], b[1..]) {
        SubsequenceTransitive(a[1..], b[1..], c[1..]);
      } else {
        SubsequenceTransitive(a, b[1..], c[1..]);
      }
    }
  }

  /** Cutting out the slice `s[i..j]` leaves a subsequence of `s`. */
  lemma CutIsSubsequence(s: string, i: nat, j: nat)
    requires i <= j <= |s|
    ensures IsSubsequence(s[..i] + s[j..], s)
  {
    SubsequenceReflexive(s[..i]);
    SubsequenceReflexive(s[j..]);
    SubsequenceExtendLeft(s[j..], s[i..j], s[j..]);
    SubsequenceAppend(s[..i], s[..i], s[j..], s[i..j] + s[j..]);
    assert s[..i] + (s[i..j] + s[j..]) == s;
  }

  /** Deleting whitespace leaves a subsequence. */
  lemma {:induction false} RemoveWhitespaceIsSubsequence(s: string)
    ensures IsSubsequence(RemoveWhitespace(s), s)
  {
    if s != [] {
      RemoveWhitespaceIsSubsequence(s[1..]);
      if IsWhitespace(s[0]) {
        SubsequenceExtendLeft(RemoveWhitespace(s[1..]), [s[0]], s[1..]);
        assert [s[0]] + s[1..] == s;
      } else {
        assert ([s[0]] + RemoveWhitespace(s[1..]))[1..] == RemoveWhitespace(s[1..]);
      }
    }
  }

  /** Replacing the first occurrence by nothing leaves a subsequence. */
  lemma ReplaceFirstByNothingIsSubsequence(s: string, p: string)
    ensures IsSubsequence(ReplaceFirst(s, p, ""), s)
  {
    var i := IndexOf(s, p);
    if i == -1 {
      SubsequenceReflexive(s);
    } else {
      CutIsSubsequence(s, i, i + |p|);
      assert s[..i] + "" + s[i + |p|..] == s[..i] + s[i + |p|..];
    }
  }

  /**
   * Only the first occurrence is replaced: an occurrence of `p` that lies wholly
   * after the first one is still there, shifted by the change in length.
   */
  lemma LaterOccurrenceSurvives(s: string, p: string, rep: string, i: int, j: int)
    requires '$' !in rep
    requires IsFirstOccurrence(s, p, i) && OccursAt(s, p, j) && i + |p| <= j
    ensures OccursAt(ReplaceFirst(s, p, rep), p, j - |p| + |rep|)
  {
    var r := ReplaceFirst(s, p, rep);
    var k := j - |p| + |rep|;
    assert r == s[..i] + rep + s[i + |p|..];
    assert r[k..k + |p|] == s[j..j + |p|];
  }
}
