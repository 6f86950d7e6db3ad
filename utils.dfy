/**
 * `StrExt::find_last_adjacent` (src/utils.rs): the last occurrence of a char
 * within the first group of that char, where a group is a run of the char
 * possibly interrupted by whitespace.
 */
module Utils {
  import opened Wrappers
  import opened RustStr

  /**
   * The scan find_last_adjacent performs over char indices, resumed at index
   * `i` with `last` the occurrence recorded so far.
   */
  function ScanFrom(s: string, ch: char, i: nat, last: Option<nat>): (r: Option<nat>)
    requires i <= |s| && (last.Some? ==> last.value < i && s[last.value] == ch)
    ensures r.Some? ==> r.value < |s| && s[r.value] == ch
    ensures last.Some? ==> r.Some?
    decreases |s| - i
  {
    if i == |s| then last
    else if s[i] == ch then ScanFrom(s, ch, i + 1, Some(i))
    else if !IsWhitespace(s[i]) && last.Some? then last
    else ScanFrom(s, ch, i + 1, last)
  }

  /** The char index find_last_adjacent reports (before conversion to a byte offset). */
  function LastAdjacent(s: string, ch: char): (r: Option<nat>)
    ensures r.Some? ==> r.value < |s| && s[r.value] == ch
  {
    ScanFrom(s, ch, 0, None)
  }

  /**
   * The reference meaning of "last char of the first group": `s[k]` is `ch`,
   * everything from the first `ch` up to `k` is `ch` or whitespace, and every
   * later `ch` is cut off from `k` by some other non-whitespace char.
   */
  ghost predicate EndsFirstGroup(s: string, ch: char, k: nat) {
    && k < |s| && s[k] == ch
    && IndexOf(s, ch).Some?
    && IndexOf(s, ch).value <= k
    && (forall j :: IndexOf(s, ch).value <= j <= k ==> s[j] == ch || IsWhitespace(s[j]))
    && (forall j :: k < j < |s| && s[j] == ch ==>
          exists m :: k < m < j && !IsWhitespace(s[m]) && s[m] != ch)
  }

  /** Converts a char index into `s` to the byte offset `char_indices` reports for it. */
  function ByteOffsetOf(s: string, k: Option<nat>): (r: Option<nat>)
    requires k.Some? ==> k.value <= |s|
    ensures r.Some? <==> k.Some?
    ensures IsAscii(s) ==> r == k
  {
    match k
    case None => None
    case Some(i) =>
      assert IsAscii(s) ==> ByteLen(s[..i]) == i by {
        if IsAscii(s) { AsciiByteLen(s[..i]); }
      }
      Some(ByteLen(s[..i]))
  }

  /** Once a `ch` has been seen, the scan ends at the last `ch` of that group. */
  lemma {:induction false} ScanAfterFirst(s: string, ch: char, i: nat, k: nat, f: nat) returns (r: nat)
    requires k < i <= |s| && f <= k && s[k] == ch
    requires forall j :: f <= j <= k ==> s[j] == ch || IsWhitespace(s[j])
    requires forall m :: k < m < i ==> IsWhitespace(s[m]) && s[m] != ch
    ensures ScanFrom(s, ch, i, Some(k)) == Some(r)
    ensures k <= r < |s| && s[r] == ch
    ensures forall j :: f <= j <= r ==> s[j] == ch || IsWhitespace(s[j])
    ensures forall j :: r < j < |s| && s[j] == ch ==>
              exists m :: r < m < j && !IsWhitespace(s[m]) && s[m] != ch
    decreases |s| - i
  {
    if i == |s| {
      r := k;
    } else if s[i] == ch {
      r := ScanAfterFirst(s, ch, i + 1, i, f);
    } else if !IsWhitespace(s[i]) {
      r := k;
      forall j | r < j < |s| && s[j] == ch
        ensures exists m :: r < m < j && !IsWhitespace(s[m]) && s[m] != ch
      {
        assert i < j && !IsWhitespace(s[i]) && s[i] != ch;
      }
    } else {
      r := ScanAfterFirst(s, ch, i + 1, k, f);
    }
  }

  /** Before the first `ch`, the scan only moves forward. */
  lemma {:induction false} ScanBeforeFirst(s: string, ch: char, i: nat)
    requires i <= |s| && ch !in s[..i]
    ensures IndexOf(s, ch).None? ==> ScanFrom(s, ch, i, None).None?
    ensures IndexOf(s, ch).Some? ==>
              ScanFrom(s, ch, i, None) == ScanFrom(s, ch, IndexOf(s, ch).value + 1, Some(IndexOf(s, ch).value))
    decreases |s| - i
  {
    if i < |s| {
      if s[i] == ch {
        assert s[..i + 1][i] == ch;
      } else {
        assert s[..i + 1] == s[..i] + [s[i]];
        ScanBeforeFirst(s, ch, i + 1);
      }
    } else {
      assert s[..i] == s;
    }
  }

  /** The result is absent exactly when `ch` does not occur in `s`. */
  lemma LastAdjacentNone(s: string, ch: char)
    ensures LastAdjacent(s, ch).None? <==> ch !in s
  {
    ScanBeforeFirst(s, ch, 0);
    if IndexOf(s, ch).Some? {
      var f := IndexOf(s, ch).value;
      var _ := ScanAfterFirst(s, ch, f + 1, f, f);
    }
  }

  /** A reported index ends the first group in the sense of EndsFirstGroup. */
  lemma LastAdjacentEndsGroup(s: string, ch: char)
    requires LastAdjacent(s, ch).Some?
    ensures EndsFirstGroup(s, ch, LastAdjacent(s, ch).value)
  {
    ScanBeforeFirst(s, ch, 0);
    var f := IndexOf(s, ch).value;
    var r := ScanAfterFirst(s, ch, f + 1, f, f);
  }

  /** EndsFirstGroup singles out one index. */
  lemma EndsFirstGroupUnique(s: string, ch: char, k: nat, k': nat)
    requires EndsFirstGroup(s, ch, k) && EndsFirstGroup(s, ch, k')
    ensures k == k'
  {
  }

  /** find_last_adjacent's char index is exactly the index that ends the first group. */
  lemma LastAdjacentIff(s: string, ch: char, k: nat)
    ensures LastAdjacent(s, ch) == Some(k) <==> EndsFirstGroup(s, ch, k)
  {
    if LastAdjacent(s, ch) == Some(k) {
      LastAdjacentEndsGroup(s, ch);
    }
    if EndsFirstGroup(s, ch, k) {
      LastAdjacentNone(s, ch);
      LastAdjacentEndsGroup(s, ch);
      EndsFirstGroupUnique(s, ch, k, LastAdjacent(s, ch).value);
    }
  }

  /**
   * `find_last_adjacent`: the loop over `char_indices`, which reports a byte
   * offset; it is the char index of LastAdjacent converted to bytes.
   */
  method FindLastAdjacent(s: string, ch: char) returns (r: Option<nat>)
    ensures r == ByteOffsetOf(s, LastAdjacent(s, ch))
  {
    var lastCh: Option<nat> := None;
    ghost var lastIdx: Option<nat> := None;
    var i, b := 0, 0;
    while i < |s|
      invariant i <= |s|
      invariant b == ByteLen(s[..i])
      invariant lastIdx.Some? ==> lastIdx.value < i && s[lastIdx.value] == ch
      invariant ScanFrom(s, ch, i, lastIdx) == LastAdjacent(s, ch)
      invariant lastCh == ByteOffsetOf(s, lastIdx)
    {
      var c := s[i];
      if c == ch {
        lastCh, lastIdx := Some(b), Some(i);
      } else if !IsWhitespace(c) && lastCh.Some? {
        break;
      }
      assert s[..i + 1][..i] == s[..i];
      b, i := b + Utf8Len(c), i + 1;
    }
    assert lastIdx.Some? ==> lastIdx.value < |s|;
    r := lastCh;
  }

  /** The cases the source's tests check. */
  lemma FindLastAdjacentExamples()
    ensures LastAdjacent("aa", 'a') == Some(1)
    ensures LastAdjacent("aabaa", 'a') == Some(1)
    ensures LastAdjacent("baa", 'a') == Some(2)
    ensures LastAdjacent("aa aa", 'a') == Some(4)
  {
  }
}
