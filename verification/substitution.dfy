/**
 * Replacement of every non-overlapping occurrence of a word in a string,
 * scanning left to right (`substituteString`), and its use for expanding the
 * two-character marker `$$` into the shell's process id.
 */
module Substitution {
  import Decimal

  /** The marker that stands for the shell's own process id. */
  const Marker := "$$"

  /** `w` occurs in `s` starting at position `i`. */
  predicate MatchAt(s: string, w: string, i: nat) {
    i + |w| <= |s| && s[i..i + |w|] == w
  }

  /** `w` occurs somewhere in `s` (what `strstr(s, w) != NULL` tests). */
  predicate Occurs(s: string, w: string) {
    exists i :: 0 <= i < |s| && MatchAt(s, w, i)
  }

  /** `s` begins with `w` (what `strstr(s, w) == s` tests). */
  predicate StartsWith(s: string, w: string) {
    |w| <= |s| && s[..|w|] == w
  }

  /** Number of non-overlapping occurrences of `w`, found left to right. */
  function Count(s: string, w: string): nat
    requires |w| > 0
    decreases |s|
  {
    if |s| == 0 then 0
    else if StartsWith(s, w) then 1 + Count(s[|w|..], w)
    else Count(s[1..], w)
  }

  /** `s` with every non-overlapping occurrence of `w` replaced by `text`, leftmost first. */
  function Replace(s: string, w: string, text: string): string
    requires |w| > 0
    decreases |s|
  {
    if |s| == 0 then ""
    else if StartsWith(s, w) then text + Replace(s[|w|..], w, text)
    else [s[0]] + Replace(s[1..], w, text)
  }

  /** The replacement is exactly as long as the allocation reserves, less the NUL. */
  lemma {:induction false} ReplaceLength(s: string, w: string, text: string)
    requires |w| > 0
    ensures |Replace(s, w, text)| == |s| + Count(s, w) * (|text| - |w|)
    decreases |s|
  {
    if |s| > 0 {
      if StartsWith(s, w) {
        var rest := s[|w|..];
        ReplaceLength(rest, w, text);
        assert Replace(s, w, text) == text + Replace(rest, w, text);
        assert Count(s, w) == 1 + Count(rest, w);
        Distribute(Count(rest, w), |text| - |w|);
      } else {
        ReplaceLength(s[1..], w, text);
      }
    }
  }

  lemma Distribute(c: int, d: int)
    ensures (1 + c) * d == d + c * d
  {
  }

  /**
   * The counting pass: walks `s`, jumping over each occurrence. It ends with
   * the index at the end of `s` and the number of occurrences.
   */
  method CountOccurrences(s: string, w: string) returns (i: nat, cnt: nat)
    requires |w| > 0
    ensures i == |s|
    ensures cnt == Count(s, w)
  {
    i, cnt := 0, 0;
    while i < |s|
      invariant i <= |s|
      invariant cnt + Count(s[i..], w) == Count(s, w)
    {
      if StartsWith(s[i..], w) {
        assert s[i..][|w|..] == s[i + |w|..];
        cnt := cnt + 1;
        i := i + |w| - 1;
      } else {
        assert s[i..][1..] == s[i + 1..];
      }
      i := i + 1;
    }
  }

  /**
   * The whole of `substituteString`: the counting pass sizes the buffer,
   * the copying pass fills it. The result is the replacement, and it fills
   * the buffer exactly, leaving one byte for the terminating NUL.
   */
  method SubstituteString(s: string, w: string, text: string) returns (result: string, size: int)
    requires |w| > 0
    ensures result == Replace(s, w, text)
    ensures |result| + 1 == size
  {
    var end, cnt := CountOccurrences(s, w);
    size := end + cnt * (|text| - |w|) + 1;
    result := CopyPass(s, w, text);
    ReplaceLength(s, w, text);
  }

  /**
   * The copying pass: at each position either the whole word matches and
   * `text` is emitted, or one character is copied.
   */
  method CopyPass(s: string, w: string, text: string) returns (result: string)
    requires |w| > 0
    ensures result == Replace(s, w, text)
  {
    result := "";
    var j := 0;
    while j < |s|
      invariant j <= |s|
      invariant result + Replace(s[j..], w, text) == Replace(s, w, text)
    {
      CopyStep(s, w, text, j, result);
      if StartsWith(s[j..], w) {
        result := result + text;
        j := j + |w|;
      } else {
        result := result + [s[j]];
        j := j + 1;
      }
    }
    assert s[j..] == [];
  }

  /** One step of the copying pass keeps the emitted prefix in step with `Replace`. */
  lemma CopyStep(s: string, w: string, text: string, j: nat, result: string)
    requires |w| > 0 && j < |s|
    requires result + Replace(s[j..], w, text) == Replace(s, w, text)
    ensures StartsWith(s[j..], w) ==>
              && j + |w| <= |s|
              && (result + text) + Replace(s[j + |w|..], w, text) == Replace(s, w, text)
    ensures !StartsWith(s[j..], w) ==>
              (result + [s[j]]) + Replace(s[j + 1..], w, text) == Replace(s, w, text)
  {
    if StartsWith(s[j..], w) {
      assert s[j..][|w|..] == s[j + |w|..];
      assert Replace(s[j..], w, text) == text + Replace(s[j + |w|..], w, text);
    } else {
      assert s[j..][1..] == s[j + 1..];
      assert Replace(s[j..], w, text) == [s[j]] + Replace(s[j + 1..], w, text);
    }
  }

  /** A string in which `w` does not occur comes back unchanged. */
  lemma {:induction false} AbsentUnchanged(s: string, w: string, text: string)
    requires |w| > 0
    requires !Occurs(s, w)
    ensures Replace(s, w, text) == s
  {
    if |s| > 0 {
      if StartsWith(s, w) {
        assert MatchAt(s, w, 0);
        assert false;
      }
      forall i | 0 <= i < |s[1..]| && MatchAt(s[1..], w, i)
        ensures false
      {
        assert s[1..][i..i + |w|] == s[i + 1..i + 1 + |w|];
        assert MatchAt(s, w, i + 1);
      }
      AbsentUnchanged(s[1..], w, text);
    }
  }

  /** No occurrence is counted exactly when `w` does not occur. */
  lemma {:induction false} CountZeroIffAbsent(s: string, w: string)
    requires |w| > 0
    ensures Count(s, w) == 0 <==> !Occurs(s, w)
  {
    if |s| > 0 {
      if StartsWith(s, w) {
        assert MatchAt(s, w, 0);
      } else {
        CountZeroIffAbsent(s[1..], w);
        if Occurs(s, w) {
          OccursInTail(s, w);
        }
        if Occurs(s[1..], w) {
          OccursFromTail(s, w);
        }
      }
    }
  }

  /** An occurrence that is not at the front lies in the tail. */
  lemma OccursInTail(s: string, w: string)
    requires |s| > 0 && |w| > 0
    requires Occurs(s, w) && !StartsWith(s, w)
    ensures Occurs(s[1..], w)
  {
    var i :| 0 <= i < |s| && MatchAt(s, w, i);
    assert i != 0;
    assert s[1..][i - 1..i - 1 + |w|] == s[i..i + |w|];
    assert MatchAt(s[1..], w, i - 1);
  }

  /** An occurrence in the tail is an occurrence in the whole string. */
  lemma OccursFromTail(s: string, w: string)
    requires |s| > 0 && |w| > 0
    requires Occurs(s[1..], w)
    ensures Occurs(s, w)
  {
    var i :| 0 <= i < |s[1..]| && MatchAt(s[1..], w, i);
    assert s[1..][i..i + |w|] == s[i + 1..i + 1 + |w|];
    assert MatchAt(s, w, i + 1);
  }

  /** No two adjacent `$` characters: the marker, seen character by character, is absent. */
  predicate NoDoubleDollar(s: string) {
    forall i :: 0 <= i < |s| - 1 ==> !(s[i] == '$' && s[i + 1] == '$')
  }

  lemma MarkerIffDoubleDollar(s: string)
    ensures Occurs(s, Marker) <==> !NoDoubleDollar(s)
  {
    if Occurs(s, Marker) {
      var i :| 0 <= i < |s| && MatchAt(s, Marker, i);
      assert s[i..i + 2][0] == s[i] && s[i..i + 2][1] == s[i + 1];
    }
    if !NoDoubleDollar(s) {
      var i :| 0 <= i < |s| - 1 && s[i] == '$' && s[i + 1] == '$';
      assert s[i..i + 2] == Marker;
      assert MatchAt(s, Marker, i);
    }
  }

  /** Replacing the marker by text free of `$` leaves no `$$` behind. */
  lemma {:induction false} NoDoubleDollarAfterReplace(s: string, text: string)
    requires '$' !in text
    ensures NoDoubleDollar(Replace(s, Marker, text))
  {
    if |s| > 0 {
      var r := Replace(s, Marker, text);
      if StartsWith(s, Marker) {
        var rest := Replace(s[2..], Marker, text);
        NoDoubleDollarAfterReplace(s[2..], text);
        assert r == text + rest;
        forall i | 0 <= i < |r| - 1
          ensures !(r[i] == '$' && r[i + 1] == '$')
        {
          if i < |text| {
            assert r[i] == text[i];
          } else {
            assert r[i] == rest[i - |text|] && r[i + 1] == rest[i + 1 - |text|];
          }
        }
      } else {
        var rest := Replace(s[1..], Marker, text);
        NoDoubleDollarAfterReplace(s[1..], text);
        assert r == [s[0]] + rest;
        if s[0] == '$' && |s| > 1 {
          // The scan did not match at 0, so the next character is not `$`,
          // and the rest therefore begins with it unchanged.
          assert s[..2] == [s[0], s[1]];
          assert s[1] != '$';
          assert !StartsWith(s[1..], Marker);
          assert rest[0] == s[1];
        }
        forall i | 0 <= i < |r| - 1
          ensures !(r[i] == '$' && r[i + 1] == '$')
        {
          if i > 0 {
            assert r[i] == rest[i - 1] && r[i + 1] == rest[i];
          }
        }
      }
    }
  }

  /** After expanding the marker into `$`-free text, no marker is left. */
  lemma NoMarkerLeft(s: string, text: string)
    requires '$' !in text
    ensures !Occurs(Replace(s, Marker, text), Marker)
  {
    NoDoubleDollarAfterReplace(s, text);
    MarkerIffDoubleDollar(Replace(s, Marker, text));
  }

  /** Expanding an already expanded token a second time changes nothing. */
  lemma ExpansionIdempotent(s: string, text: string)
    requires '$' !in text
    ensures Replace(Replace(s, Marker, text), Marker, text) == Replace(s, Marker, text)
  {
    NoMarkerLeft(s, text);
    AbsentUnchanged(Replace(s, Marker, text), Marker, text);
  }

  /** Occurrences are taken left to right without overlap: `$$$` holds one. */
  lemma LeftToRight(text: string)
    ensures Replace("$$$", Marker, text) == text + "$"
    ensures Replace("$$$$", Marker, text) == text + text
  {
    assert StartsWith("$$$", Marker);
    assert "$$$"[2..] == "$";
    assert !StartsWith("$", Marker);
    assert StartsWith("$$$$", Marker);
    assert "$$$$"[2..] == "$$";
    assert StartsWith("$$", Marker);
    assert "$$"[2..] == "";
  }

  /**
   * How one token is stored: expanded only when it contains the marker,
   * copied otherwise. Either way it is the uniform replacement, and the
   * stored token holds no marker.
   */
  function ExpandToken(token: string, pid: nat): (stored: string)
    ensures stored == Replace(token, Marker, Decimal.Show(pid))
    ensures !Occurs(stored, Marker)
    ensures !Occurs(token, Marker) ==> stored == token
  {
    NoMarkerLeft(token, Decimal.Show(pid));
    if Occurs(token, Marker) then
      Replace(token, Marker, Decimal.Show(pid))
    else
      AbsentUnchanged(token, Marker, Decimal.Show(pid));
      token
  }
}
