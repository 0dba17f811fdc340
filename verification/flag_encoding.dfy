/**
 * The text encoding of the "already notified" flag in the state file
 * (`read_state` / `write_state` in gas_price_checker.py): the flag is written
 * as Python's `str(bool)` and read back as `content.strip() == 'True'`.
 */
module FlagEncoding {
  import opened Wrappers

  /** Python's `str.isspace`: the characters `str.strip()` removes. */
  predicate IsSpace(c: char) {
    ('\t' <= c <= '\r') || ('\U{1C}' <= c <= ' ') || c == '\U{85}' || c == '\U{A0}'
    || c == '\U{1680}' || ('\U{2000}' <= c <= '\U{200A}') || c == '\U{2028}' || c == '\U{2029}'
    || c == '\U{202F}' || c == '\U{205F}' || c == '\U{3000}'
  }

  /** Every character of `s` from index `lo` up to (not including) `hi` is whitespace. */
  predicate SpaceBetween(s: string, lo: int, hi: int)
    requires 0 <= lo && hi <= |s|
  {
    forall k :: lo <= k < hi ==> IsSpace(s[k])
  }

  /**
   * The left scan of `str.strip()`: the index of the first character at or
   * after `k` that is not whitespace, or `|s|` when there is none.
   */
  function SkipSpace(s: string, k: nat): (n: nat)
    requires k <= |s|
    ensures k <= n <= |s| && SpaceBetween(s, k, n)
    ensures n == |s| || !IsSpace(s[n])
    decreases |s| - k
  {
    if k < |s| && IsSpace(s[k]) then SkipSpace(s, k + 1) else k
  }

  /**
   * The right scan of `str.strip()`: the end of `s[lo..k]` once its trailing
   * whitespace is dropped.
   */
  function DropSpace(s: string, lo: nat, k: nat): (n: nat)
    requires lo <= k <= |s|
    ensures lo <= n <= k && SpaceBetween(s, n, k)
    ensures n == lo || !IsSpace(s[n - 1])
    decreases k
  {
    if k > lo && IsSpace(s[k - 1]) then DropSpace(s, lo, k - 1) else k
  }

  /**
   * `s.strip()`: a contiguous piece of `s` with only whitespace cut off on
   * either side, and no whitespace left at either end.
   */
  function Strip(s: string): (r: string)
    ensures exists i, j :: 0 <= i <= j <= |s| && r == s[i..j] && SpaceBetween(s, 0, i) && SpaceBetween(s, j, |s|)
    ensures r == [] || (!IsSpace(r[0]) && !IsSpace(r[|r| - 1]))
  {
    var i := SkipSpace(s, 0);
    var j := DropSpace(s, i, |s|);
    assert i < j ==> s[i..j][0] == s[i] && s[i..j][j - i - 1] == s[j - 1];
    s[i..j]
  }

  /** `str(state)` for a Python bool: the text that reads back as `b`. */
  function ShowBool(b: bool): (r: string)
    ensures ParseFlag(r) == b
  {
    if b then "True" else "False"
  }

  /**
   * The comparison `file.read().strip() == 'True'`. Only content that
   * contains the word "True" reads as True (`ParseFlagIff` says exactly which).
   */
  predicate ParseFlag(content: string)
    ensures ParseFlag(content) ==> exists i :: 0 <= i <= |content| && "True" <= content[i..]
  {
    StrippedTrueWitness(content);
    Strip(content) == "True"
  }

  /** Where `Strip` leaves "True", the word starts at the index the left scan stopped at. */
  lemma StrippedTrueWitness(s: string)
    ensures Strip(s) == "True" ==> exists i :: 0 <= i <= |s| && "True" <= s[i..]
  {
    if Strip(s) == "True" {
      var i, j :| 0 <= i <= j <= |s| && Strip(s) == s[i..j] && SpaceBetween(s, 0, i) && SpaceBetween(s, j, |s|);
      assert j - i == 4 && s[i..][..4] == s[i..j];
      assert "True" <= s[i..];
    }
  }

  /**
   * The flag `read_state` returns for the state file: an existing file is
   * parsed, and a missing one reads exactly as a file holding 'False' would.
   */
  function FlagOf(file: Option<string>): (r: bool)
    ensures r == ParseFlag(file.GetOr("False"))
  {
    match file
    case None => false
    case Some(content) => ParseFlag(content)
  }

  /** `str(b)` read back gives `b`: what `write_state` stores, `read_state` returns. */
  lemma ReadBackWritten(b: bool)
    ensures FlagOf(Some(ShowBool(b))) == b
  {
  }

  /**
   * `read_state` creating a missing file with 'False' does not change the flag:
   * the next read gives what this one returned.
   */
  lemma ReadCreatesFalse(file: Option<string>)
    ensures FlagOf(Some(file.GetOr("False"))) == FlagOf(file)
  {
  }

  /**
   * Content reads as True exactly when it is the word "True" surrounded only by
   * whitespace; every other content ("true", "1", "False", "", ...) reads as False.
   */
  lemma ParseFlagIff(s: string)
    ensures ParseFlag(s) <==>
      exists i, j :: 0 <= i <= j <= |s| && SpaceBetween(s, 0, i) && s[i..j] == "True" && SpaceBetween(s, j, |s|)
  {
    if exists i, j :: 0 <= i <= j <= |s| && SpaceBetween(s, 0, i) && s[i..j] == "True" && SpaceBetween(s, j, |s|) {
      var i, j :| 0 <= i <= j <= |s| && SpaceBetween(s, 0, i) && s[i..j] == "True" && SpaceBetween(s, j, |s|);
      SurroundedTrueParses(s, i, j);
    }
  }

  /** "True" with only whitespace around it reads as True. */
  lemma SurroundedTrueParses(s: string, i: nat, j: nat)
    requires i <= j <= |s| && SpaceBetween(s, 0, i) && s[i..j] == "True" && SpaceBetween(s, j, |s|)
    ensures ParseFlag(s)
  {
    var w := s[i..j];
    assert |w| == 4 && j == i + 4;
    assert s[i] == w[0] == 'T';
    assert s[j - 1] == w[3] == 'e';
    SkipSpaceAt(s, 0, i);
    DropSpaceAt(s, i, |s|, j);
  }

  /** The left scan stops at the first non-whitespace character. */
  lemma SkipSpaceAt(s: string, k: nat, i: nat)
    requires k <= i < |s| && SpaceBetween(s, k, i) && !IsSpace(s[i])
    ensures SkipSpace(s, k) == i
  {
  }

  /** The right scan stops after the last non-whitespace character. */
  lemma DropSpaceAt(s: string, lo: nat, k: nat, j: nat)
    requires lo < j <= k <= |s| && SpaceBetween(s, j, k) && !IsSpace(s[j - 1])
    ensures DropSpace(s, lo, k) == j
  {
  }
}
