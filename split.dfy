/**
 * `str.split()` with no argument, as `find_largest_number` uses it on each
 * page's text: runs of whitespace separate tokens, and no token is empty.
 * The whitespace set is fixed to the ASCII characters Python treats as
 * whitespace.
 */
module TextSplit {

  /** Space, tab, line feed, carriage return, vertical tab, form feed, and
   *  the file, group, record and unit separators. */
  const Whitespace: string :=
    " \t\n\r\U{000B}\U{000C}\U{001C}\U{001D}\U{001E}\U{001F}"

  /** Membership in Whitespace, as a test on the character. */
  predicate IsSpace(c: char)
  {
    c == ' ' || '\t' <= c <= '\r' || '\U{001C}' <= c <= '\U{001F}'
  }

  /** The test is exactly membership in the constant string. */
  lemma SpaceClass(c: char)
    ensures IsSpace(c) <==> c in Whitespace
  {
  }

  /** A token: non-empty and free of whitespace. */
  predicate IsWord(w: string)
  {
    w != [] && forall k :: 0 <= k < |w| ==> !IsSpace(w[k])
  }

  /** The end of the whitespace-free run that starts at k. */
  function WordEnd(s: string, k: nat): (e: nat)
    requires k <= |s|
    ensures k <= e <= |s|
    ensures forall m :: k <= m < e ==> !IsSpace(s[m])
    ensures e < |s| ==> IsSpace(s[e])
    decreases |s| - k
  {
    if k == |s| || IsSpace(s[k]) then k else WordEnd(s, k + 1)
  }

  /** The tokens of s, in order. */
  function Split(s: string): seq<string>
    decreases |s|
  {
    if s == [] then []
    else if IsSpace(s[0]) then Split(s[1..])
    else
      var e := WordEnd(s, 0);
      [s[..e]] + Split(s[e..])
  }

  /** Every token is non-empty and free of whitespace. */
  lemma {:induction false} SplitWords(s: string)
    ensures forall k :: 0 <= k < |Split(s)| ==> IsWord(Split(s)[k])
    decreases |s|
  {
    if s == [] {
    } else if IsSpace(s[0]) {
      SplitWords(s[1..]);
    } else {
      var e := WordEnd(s, 0);
      SplitWords(s[e..]);
      assert IsWord(s[..e]);
    }
  }

  /** The words joined by single spaces. */
  function Join(ws: seq<string>): string
  {
    if ws == [] then []
    else if |ws| == 1 then ws[0]
    else ws[0] + " " + Join(ws[1..])
  }

  /** The words concatenated with nothing between them. */
  function Concat(ws: seq<string>): string
  {
    if ws == [] then [] else ws[0] + Concat(ws[1..])
  }

  /** The string with every whitespace character left out. */
  function NonSpace(s: string): string
  {
    if s == [] then []
    else (if IsSpace(s[0]) then [] else [s[0]]) + NonSpace(s[1..])
  }

  /** WordEnd is the one index that ends the run. */
  lemma {:induction false} WordEndUnique(s: string, k: nat, e: nat)
    requires k <= e <= |s|
    requires forall m :: k <= m < e ==> !IsSpace(s[m])
    requires e < |s| ==> IsSpace(s[e])
    ensures WordEnd(s, k) == e
    decreases e - k
  {
  }

  /** A word followed by whitespace (or by nothing) ends where it ends. */
  lemma WordEndAfter(w: string, rest: string)
    requires IsWord(w)
    requires rest == [] || IsSpace(rest[0])
    ensures WordEnd(w + rest, 0) == |w|
  {
    var s := w + rest;
    assert forall m :: 0 <= m < |w| ==> s[m] == w[m];
    WordEndUnique(s, 0, |w|);
  }

  /** Splitting a space-joined list of words gives back the words. */
  lemma {:induction false} SplitJoin(ws: seq<string>)
    requires forall k :: 0 <= k < |ws| ==> IsWord(ws[k])
    ensures Split(Join(ws)) == ws
  {
    if ws == [] {
    } else if |ws| == 1 {
      var w := ws[0];
      WordEndAfter(w, []);
      assert w + [] == w;
      assert w[..|w|] == w;
      assert w[|w|..] == [];
    } else {
      var w := ws[0];
      var rest := " " + Join(ws[1..]);
      var s := w + rest;
      assert Join(ws) == s;
      WordEndAfter(w, rest);
      assert s[..|w|] == w;
      assert s[|w|..] == rest;
      assert rest[1..] == Join(ws[1..]);
      SplitJoin(ws[1..]);
      assert Split(s) == [w] + Split(rest);
    }
  }

  lemma {:induction false} NonSpaceAppend(a: string, b: string)
    ensures NonSpace(a + b) == NonSpace(a) + NonSpace(b)
  {
    if a == [] {
      assert a + b == b;
    } else {
      assert (a + b)[0] == a[0] && (a + b)[1..] == a[1..] + b;
      NonSpaceAppend(a[1..], b);
    }
  }

  lemma {:induction false} NonSpaceOfWord(w: string)
    requires forall k :: 0 <= k < |w| ==> !IsSpace(w[k])
    ensures NonSpace(w) == w
  {
    if w != [] {
      NonSpaceOfWord(w[1..]);
    }
  }

  /**
   * Splitting loses only whitespace: the tokens, put back together, are the
   * text's non-whitespace characters in their order.
   */
  lemma {:induction false} SplitKeepsText(s: string)
    ensures Concat(Split(s)) == NonSpace(s)
    decreases |s|
  {
    if s == [] {
    } else if IsSpace(s[0]) {
      SplitKeepsText(s[1..]);
    } else {
      var e := WordEnd(s, 0);
      assert s == s[..e] + s[e..];
      NonSpaceAppend(s[..e], s[e..]);
      NonSpaceOfWord(s[..e]);
      SplitKeepsText(s[e..]);
      assert Split(s) == [s[..e]] + Split(s[e..]);
      assert Concat(Split(s)) == s[..e] + Concat(Split(s[e..]));
    }
  }

  /** A single word is a single token. */
  lemma SplitOfWord(w: string)
    requires IsWord(w)
    ensures Split(w) == [w]
  {
    SplitJoin([w]);
  }

  /**
   * Any whitespace character separates: the tokens on either side of it are
   * split apart, and no token spans it. With SplitOfWord and Split("") == []
   * this determines the tokens of every text: the maximal whitespace-free
   * runs, in order.
   */
  lemma {:induction false} SplitAtSpace(a: string, c: char, b: string)
    requires IsSpace(c)
    ensures Split(a + [c] + b) == Split(a) + Split(b)
    decreases |a|
  {
    var s := a + [c] + b;
    if a == [] {
      assert s == [c] + b && s[1..] == b;
    } else if IsSpace(a[0]) {
      assert s[1..] == a[1..] + [c] + b;
      SplitAtSpace(a[1..], c, b);
    } else {
      var ea := WordEnd(a, 0);
      WordEndBefore(a, [c] + b);
      assert s == a + ([c] + b);
      assert s[..ea] == a[..ea];
      assert s[ea..] == a[ea..] + [c] + b;
      assert Split(s) == [a[..ea]] + Split(a[ea..] + [c] + b);
      SplitAtSpace(a[ea..], c, b);
    }
  }

  /** A run that starts a text ends where it would without what follows a space. */
  lemma WordEndBefore(a: string, rest: string)
    requires rest != [] && IsSpace(rest[0])
    ensures WordEnd(a + rest, 0) == WordEnd(a, 0)
  {
    var s, ea := a + rest, WordEnd(a, 0);
    assert forall m :: 0 <= m < |a| ==> s[m] == a[m];
    assert s[|a|] == rest[0];
    WordEndUnique(s, 0, ea);
  }
}
