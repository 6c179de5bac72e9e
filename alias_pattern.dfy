/**
 * The alias-extraction step of SearchableExpression::getTableNameAndAlias:
 * the PCRE pattern `^(.*?)\s+({{\w+}}|\w+)$` applied to a raw table name,
 * and the text of its second capture group.
 *
 * The pattern is compiled without modifiers, so `.` matches anything but a
 * line feed and `$` matches at the end of the subject or just before a line
 * feed that ends it. Character classes follow the default (C locale) tables.
 */
module AliasPattern {
  import opened Wrappers

  /** `\s`: space, tab, line feed, vertical tab, form feed, carriage return. */
  predicate IsSpace(c: char) {
    c == ' ' || '\t' <= c <= '\r'
  }

  /** `\w`: ASCII letters, digits and underscore. */
  predicate IsWordChar(c: char) {
    'a' <= c <= 'z' || 'A' <= c <= 'Z' || '0' <= c <= '9' || c == '_'
  }

  /** `\w+` */
  predicate IsWord(w: string) {
    |w| > 0 && forall k :: 0 <= k < |w| ==> IsWordChar(w[k])
  }

  /** The alternation `{{\w+}}|\w+`. */
  predicate IsAliasToken(t: string) {
    IsWord(t) || (|t| >= 5 && t[..2] == "{{" && t[|t| - 2..] == "}}" && IsWord(t[2..|t| - 2]))
  }

  predicate AllSpace(w: string) {
    forall k :: 0 <= k < |w| ==> IsSpace(w[k])
  }

  /**
   * Declarative reading of the pattern: the subject is a prefix `p` free of
   * line feeds (`(.*?)`), a non-empty run of whitespace `ws` (`\s+`) and a
   * token `tok` (group 2), optionally followed by the one line feed `$`
   * may stand before.
   */
  predicate Matches(s: string, p: string, ws: string, tok: string) {
    (s == p + ws + tok || s == p + ws + tok + "\n")
    && '\n' !in p && |ws| > 0 && AllSpace(ws) && IsAliasToken(tok)
  }

  /** The position at which the token has to end for `$` to hold. */
  function SubjectEnd(s: string): (e: nat)
    ensures e <= |s|
    ensures e == |s| || (e == |s| - 1 && s[e] == '\n')
    ensures e < |s| <==> (|s| > 0 && s[|s| - 1] == '\n')
  {
    if |s| > 0 && s[|s| - 1] == '\n' then |s| - 1 else |s|
  }

  /** Start of the longest whitespace-free stretch of `s` that ends at `e`. */
  function TokenStart(s: string, e: nat): (j: nat)
    requires e <= |s|
    ensures j <= e
    ensures forall k :: j <= k < e ==> !IsSpace(s[k])
    ensures j == 0 || IsSpace(s[j - 1])
    decreases e
  {
    if e == 0 || IsSpace(s[e - 1]) then e else TokenStart(s, e - 1)
  }

  /** Start of the longest whitespace run of `s` that ends at `j`. */
  function RunStart(s: string, j: nat): (i: nat)
    requires j <= |s|
    ensures i <= j
    ensures forall k :: i <= k < j ==> IsSpace(s[k])
    ensures i == 0 || !IsSpace(s[i - 1])
    decreases j
  {
    if j == 0 || !IsSpace(s[j - 1]) then j else RunStart(s, j - 1)
  }

  /**
   * The capture group 2 when the pattern matches, computed without
   * backtracking: the token is what follows the last whitespace character
   * before the end, and the lazy prefix can stop at the start of the
   * whitespace run in front of it.
   */
  function TrailingAlias(s: string): Option<string>
  {
    var e := SubjectEnd(s);
    var j := TokenStart(s, e);
    var i := RunStart(s, j);
    if i < j && '\n' !in s[..i] && IsAliasToken(s[j..e]) then Some(s[j..e]) else None
  }

  /** A token holds no whitespace and does not end in a line feed. */
  lemma TokenHasNoSpace(t: string)
    requires IsAliasToken(t)
    ensures |t| > 0 && t[|t| - 1] != '\n'
    ensures forall k :: 0 <= k < |t| ==> !IsSpace(t[k])
  {
    if !IsWord(t) {
      var w := t[2..|t| - 2];
      assert t == t[..2] + w + t[|t| - 2..];
      forall k | 0 <= k < |t| ensures !IsSpace(t[k]) {
        if 2 <= k < |t| - 2 {
          assert t[k] == w[k - 2];
        } else if k < 2 {
          assert t[k] == t[..2][k];
        } else {
          assert t[k] == t[|t| - 2..][k - (|t| - 2)];
        }
      }
      assert t[|t| - 1] == t[|t| - 2..][1];
    }
  }

  /** A whitespace-free stretch ending at `e` and preceded by whitespace (or nothing) starts where TokenStart says. */
  lemma TokenStartAt(s: string, e: nat, j: nat)
    requires j <= e <= |s|
    requires forall k :: j <= k < e ==> !IsSpace(s[k])
    requires j == 0 || IsSpace(s[j - 1])
    ensures TokenStart(s, e) == j
  {
    // Follows from the postconditions of TokenStart: neither t < j nor t > j is consistent with them.
  }

  /** A whitespace run ending at `j` that reaches back to `i` makes RunStart reach at least as far. */
  lemma RunStartAtMost(s: string, j: nat, i: nat)
    requires i <= j <= |s|
    requires forall k :: i <= k < j ==> IsSpace(s[k])
    ensures RunStart(s, j) <= i
  {
    // Follows from the postconditions of RunStart: a start past i would have whitespace just before it.
  }

  /** Whenever the computed capture exists, the subject decomposes as the pattern says. */
  lemma TrailingAliasSound(s: string)
    requires TrailingAlias(s).Some?
    ensures exists p, ws :: Matches(s, p, ws, TrailingAlias(s).value)
  {
    var e := SubjectEnd(s);
    var j := TokenStart(s, e);
    var i := RunStart(s, j);
    var p, ws, tok := s[..i], s[i..j], s[j..e];
    assert s[..e] == p + ws + tok;
    assert AllSpace(ws) by {
      forall k | 0 <= k < |ws| ensures IsSpace(ws[k]) { assert ws[k] == s[i + k]; }
    }
    if e < |s| {
      assert s == s[..e] + "\n";
    } else {
      assert s == s[..e];
    }
    assert Matches(s, p, ws, tok);
  }

  /**
   * Every way the pattern can match yields the computed capture: the match
   * is found, and group 2 does not depend on where the lazy prefix stops.
   */
  lemma TrailingAliasComplete(s: string, p: string, ws: string, tok: string)
    requires Matches(s, p, ws, tok)
    ensures TrailingAlias(s) == Some(tok)
  {
    TokenHasNoSpace(tok);
    var j := |p| + |ws|;
    var e := j + |tok|;
    assert s[..e] == p + ws + tok;
    forall k | |p| <= k < j ensures IsSpace(s[k]) {
      assert s[k] == ws[k - |p|];
    }
    forall k | j <= k < e ensures !IsSpace(s[k]) {
      assert s[k] == tok[k - j];
    }
    if s == p + ws + tok {
      assert s[|s| - 1] == tok[|tok| - 1];
    }
    assert SubjectEnd(s) == e;
    TokenStartAt(s, e, j);
    RunStartAtMost(s, j, |p|);
    var ti := RunStart(s, j);
    assert s[..ti] == p[..ti];
    assert '\n' !in s[..ti];
    assert s[j..e] == tok;
  }

  /** When nothing is captured, no decomposition of the subject fits the pattern. */
  lemma TrailingAliasNone(s: string)
    requires TrailingAlias(s).None?
    ensures forall p, ws, tok :: !Matches(s, p, ws, tok)
  {
    forall p, ws, tok ensures !Matches(s, p, ws, tok) {
      if Matches(s, p, ws, tok) {
        TrailingAliasComplete(s, p, ws, tok);
      }
    }
  }
}
