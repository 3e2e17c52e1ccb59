/**
 * Splitting an input line into tokens (`strtok_r` on `" "`) and storing each
 * token with its `$$` markers expanded (`holdUserCommand`).
 */
module Tokenize {
  import Decimal
  import Substitution

  /** A token: non-empty and free of the separator. */
  predicate IsWord(w: string) {
    |w| > 0 && ' ' !in w
  }

  predicate AllWords(ts: seq<string>) {
    forall i :: 0 <= i < |ts| ==> IsWord(ts[i])
  }

  /** Length of the run of non-space characters at the front of `s`. */
  function WordLen(s: string): (k: nat)
    ensures k <= |s|
    ensures forall i :: 0 <= i < k ==> s[i] != ' '
    ensures k == |s| || s[k] == ' '
  {
    if |s| == 0 || s[0] == ' ' then 0 else 1 + WordLen(s[1..])
  }

  /**
   * The tokens of a line, in input order: the maximal runs of non-space
   * characters. Only `' '` separates; runs of spaces produce no empty token.
   */
  function Tokens(s: string): (ts: seq<string>)
    ensures AllWords(ts)
    decreases |s|
  {
    if |s| == 0 then []
    else if s[0] == ' ' then Tokens(s[1..])
    else
      var k := WordLen(s);
      [s[..k]] + Tokens(s[k..])
  }

  /** Tokens written back with one space between each. */
  function Join(ts: seq<string>): string {
    if |ts| == 0 then ""
    else if |ts| == 1 then ts[0]
    else ts[0] + " " + Join(ts[1..])
  }

  /** Concatenation of tokens without separators. */
  function Concat(ts: seq<string>): string {
    if |ts| == 0 then "" else ts[0] + Concat(ts[1..])
  }

  /** `s` with every space removed. */
  function RemoveSpaces(s: string): string {
    if |s| == 0 then ""
    else (if s[0] == ' ' then "" else [s[0]]) + RemoveSpaces(s[1..])
  }

  lemma {:induction false} WordLenOfWord(w: string, rest: string)
    requires ' ' !in w
    requires |rest| == 0 || rest[0] == ' '
    ensures WordLen(w + rest) == |w|
  {
    if |w| > 0 {
      assert (w + rest)[1..] == w[1..] + rest;
      WordLenOfWord(w[1..], rest);
    } else {
      assert w + rest == rest;
    }
  }

  /** Splitting the space-joined tokens gives the tokens back. */
  lemma {:induction false} TokensOfJoin(ts: seq<string>)
    requires AllWords(ts)
    ensures Tokens(Join(ts)) == ts
  {
    if |ts| == 1 {
      WordLenOfWord(ts[0], "");
      assert ts[0] + "" == ts[0];
      assert ts[0][|ts[0]|..] == "";
    } else if |ts| > 1 {
      var t := ts[0];
      var rest := Join(ts[1..]);
      var s := t + " " + rest;
      assert s == t + (" " + rest);
      WordLenOfWord(t, " " + rest);
      assert s[..|t|] == t;
      assert s[|t|..] == " " + rest;
      assert (" " + rest)[1..] == rest;
      TokensOfJoin(ts[1..]);
      assert ts == [t] + ts[1..];
    }
  }

  /** A single word is one token. */
  lemma TokensOfWord(w: string)
    requires IsWord(w)
    ensures Tokens(w) == [w]
  {
    WordLenOfWord(w, "");
    assert w + "" == w;
    assert w[|w|..] == "";
  }

  /** The run at the front of `a` stops no later than a space after `a`. */
  lemma {:induction false} WordLenBeforeSpace(a: string, rest: string)
    requires |rest| > 0 && rest[0] == ' '
    ensures WordLen(a + rest) == WordLen(a)
  {
    if |a| > 0 && a[0] != ' ' {
      assert (a + rest)[1..] == a[1..] + rest;
      WordLenBeforeSpace(a[1..], rest);
    } else if |a| == 0 {
      assert a + rest == rest;
    }
  }

  /**
   * A space cuts the line: the tokens of `a + " " + b` are those of `a`
   * followed by those of `b`, however many spaces `a` and `b` themselves
   * hold at their ends. With `TokensOfWord` this fixes the tokens of every
   * line as its maximal runs of non-space characters.
   */
  lemma {:induction false} TokensSplitAtSpace(a: string, b: string)
    ensures Tokens(a + " " + b) == Tokens(a) + Tokens(b)
    decreases |a|
  {
    var s := a + " " + b;
    if |a| == 0 {
      assert s == " " + b;
      assert s[1..] == b;
    } else if a[0] == ' ' {
      assert s[1..] == a[1..] + " " + b;
      TokensSplitAtSpace(a[1..], b);
    } else {
      assert s == a + (" " + b);
      WordLenBeforeSpace(a, " " + b);
      var k := WordLen(a);
      assert s[..k] == a[..k];
      assert s[k..] == a[k..] + " " + b;
      TokensSplitAtSpace(a[k..], b);
      assert Tokens(a) == [a[..k]] + Tokens(a[k..]);
    }
  }

  lemma {:induction false} RemoveSpacesAppend(a: string, b: string)
    ensures RemoveSpaces(a + b) == RemoveSpaces(a) + RemoveSpaces(b)
  {
    if |a| > 0 {
      assert (a + b)[1..] == a[1..] + b;
      RemoveSpacesAppend(a[1..], b);
    } else {
      assert a + b == b;
    }
  }

  lemma {:induction false} RemoveSpacesOfWord(w: string)
    requires ' ' !in w
    ensures RemoveSpaces(w) == w
  {
    if |w| > 0 {
      RemoveSpacesOfWord(w[1..]);
      assert w == [w[0]] + w[1..];
    }
  }

  /** Tokenising drops the spaces and nothing else. */
  lemma {:induction false} TokensKeepNonSpaces(s: string)
    ensures Concat(Tokens(s)) == RemoveSpaces(s)
    decreases |s|
  {
    if |s| > 0 {
      if s[0] == ' ' {
        TokensKeepNonSpaces(s[1..]);
      } else {
        var k := WordLen(s);
        TokensKeepNonSpaces(s[k..]);
        assert s == s[..k] + s[k..];
        RemoveSpacesAppend(s[..k], s[k..]);
        assert forall i :: 0 <= i < k ==> s[..k][i] != ' ';
        RemoveSpacesOfWord(s[..k]);
        assert ([s[..k]] + Tokens(s[k..]))[1..] == Tokens(s[k..]);
      }
    }
  }

  lemma {:induction false} ConcatEmpty(ts: seq<string>)
    requires AllWords(ts)
    ensures |Concat(ts)| == 0 <==> |ts| == 0
  {
    if |ts| > 0 {
      assert IsWord(ts[0]);
    }
  }

  lemma {:induction false} RemoveSpacesEmpty(s: string)
    ensures |RemoveSpaces(s)| == 0 <==> forall i :: 0 <= i < |s| ==> s[i] == ' '
  {
    if |s| > 0 {
      RemoveSpacesEmpty(s[1..]);
      assert forall i :: 1 <= i < |s| ==> s[i] == s[1..][i - 1];
    }
  }

  /**
   * A line produces no token exactly when it holds nothing but spaces:
   * the one case where the first node's value is never set.
   */
  lemma NoTokensIffBlank(s: string)
    ensures |Tokens(s)| == 0 <==> forall i :: 0 <= i < |s| ==> s[i] == ' '
  {
    TokensKeepNonSpaces(s);
    ConcatEmpty(Tokens(s));
    RemoveSpacesEmpty(s);
  }

  /**
   * The command list built from a line: its tokens in order, each stored
   * with every `$$` replaced by the decimal process id, so that no stored
   * token holds the marker.
   */
  function HoldUserCommand(line: string, pid: nat): (command: seq<string>)
    ensures |command| == |Tokens(line)|
    ensures forall i :: 0 <= i < |command| ==>
              command[i] == Substitution.Replace(Tokens(line)[i], Substitution.Marker, Decimal.Show(pid))
    ensures forall i :: 0 <= i < |command| ==> !Substitution.Occurs(command[i], Substitution.Marker)
    ensures forall i :: 0 <= i < |command| && !Substitution.Occurs(Tokens(line)[i], Substitution.Marker) ==>
              command[i] == Tokens(line)[i]
  {
    var ts := Tokens(line);
    seq(|ts|, i requires 0 <= i < |ts| => Substitution.ExpandToken(ts[i], pid))
  }
}
