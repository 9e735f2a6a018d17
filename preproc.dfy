/**
 * The token normaliser `preproc` of extract_largest_number.py.
 *
 * A raw token loses one leading '(' and one trailing ')', then a two-pointer
 * scan keeps the stretch from the first character that may open a number to
 * the last character that may close one; an empty stretch means "no number".
 * One trailing '.' is then dropped and every ',' removed.
 *
 * `Normalized` is the specification, built from small functions, and the
 * method `Preproc` is the step-by-step version with its two loops.
 */
module Normalizer {
  import opened Wrappers

  /** Characters that may open a numeric body (VALID_START). */
  const ValidStart: string := "+-0123456789."

  /** Characters that may close a numeric body (VALID_END). */
  const ValidEnd: string := "0123456789."

  /** Membership in ValidStart, as a test on the character. */
  predicate IsStart(c: char)
  {
    c == '+' || c == '-' || '0' <= c <= '9' || c == '.'
  }

  /** Membership in ValidEnd, as a test on the character. */
  predicate IsEnd(c: char)
  {
    '0' <= c <= '9' || c == '.'
  }

  /** The two tests are exactly membership in the two constant strings. */
  lemma CharClasses(c: char)
    ensures IsStart(c) <==> c in ValidStart
    ensures IsEnd(c) <==> c in ValidEnd
  {
  }

  /** 1 when the token opens with '(', the one character dropped in front. */
  function Lead(t: string): nat
  {
    if |t| > 0 && t[0] == '(' then 1 else 0
  }

  /** The token without one leading '(' and then one trailing ')'. */
  function StripParens(t: string): string
  {
    var u := if |t| > 0 && t[0] == '(' then t[1..] else t;
    if |u| > 0 && u[|u| - 1] == ')' then u[..|u| - 1] else u
  }

  /**
   * At most one '(' and one ')' go: what is left is the contiguous piece of
   * the token after the dropped '(', and it loses at most one character more
   * at its end, exactly when that character is ')'.
   */
  lemma StripParensShape(t: string)
    ensures var s := StripParens(t);
      && Lead(t) + |s| <= |t| <= Lead(t) + |s| + 1
      && s == t[Lead(t)..Lead(t) + |s|]
      && (Lead(t) + |s| < |t| <==> |t| > Lead(t) && t[|t| - 1] == ')')
  {
  }

  /**
   * The forward scan: the first index at or after k holding a character of
   * ValidStart, or |s| when there is none.
   */
  function StartFrom(s: string, k: nat): (i: nat)
    requires k <= |s|
    ensures k <= i <= |s|
    ensures forall m :: k <= m < i ==> !IsStart(s[m])
    ensures i < |s| ==> IsStart(s[i])
    decreases |s| - k
  {
    if k == |s| || IsStart(s[k]) then k else StartFrom(s, k + 1)
  }

  /**
   * The backward scan: the last index in [i, j] holding a character of
   * ValidEnd, or i itself when there is none (the scan never passes i).
   */
  function EndFrom(s: string, i: nat, j: nat): (e: nat)
    requires i <= j < |s|
    ensures i <= e <= j
    ensures forall m :: e < m <= j ==> !IsEnd(s[m])
    ensures e > i ==> IsEnd(s[e])
    decreases j - i
  {
    if j == i || IsEnd(s[j]) then j else EndFrom(s, i, j - 1)
  }

  /** The candidate numeric body that the two scans cut out of s. */
  function Candidate(s: string): string
  {
    var i := StartFrom(s, 0);
    if i == |s| then [] else s[i..EndFrom(s, i, |s| - 1) + 1]
  }

  /** The candidate without one trailing '.'. */
  function DropDot(c: string): string
  {
    if |c| > 0 && c[|c| - 1] == '.' then c[..|c| - 1] else c
  }

  /** At most one character goes, from the end, and exactly when it is '.'. */
  lemma DropDotShape(c: string)
    ensures var d := DropDot(c);
      && d == c[..|d|]
      && |c| - 1 <= |d| <= |c|
      && (|d| < |c| <==> c != [] && c[|c| - 1] == '.')
  {
  }

  /**
   * `str.replace(",", "")`: the same characters in the same order, with
   * every ',' left out.
   */
  function RemoveCommas(s: string): (r: string)
    ensures |r| <= |s|
    ensures forall k :: 0 <= k < |r| ==> r[k] != ','
  {
    if s == [] then []
    else (if s[0] == ',' then [] else [s[0]]) + RemoveCommas(s[1..])
  }

  /** The last steps of `preproc` on a candidate: None when it is empty. */
  function Finish(c: string): Option<string>
  {
    if c == [] then None else Some(RemoveCommas(DropDot(c)))
  }

  /** What `preproc` returns for a raw token: None, or the cleaned token. */
  function Normalized(token: string): Option<string>
  {
    Finish(Candidate(StripParens(token)))
  }

  /** Where the two loops stop, the slice between them is the candidate. */
  lemma SliceIsCandidate(s: string, i: int, j: int)
    requires 0 <= i <= |s| && j < |s| && (i <= j || j == |s| - 1)
    requires StartFrom(s, i) == StartFrom(s, 0) && (i == |s| || IsStart(s[i]))
    requires i < |s| ==> EndFrom(s, i, j) == EndFrom(s, i, |s| - 1) && (j == i || IsEnd(s[j]))
    ensures s[i..j + 1] == Candidate(s)
  {
  }

  /** Lines 24-29 of `preproc`: the two strips, each reassigning the token. */
  method TrimParens(token: string) returns (t: string)
    ensures t == StripParens(token)
  {
    t := token;
    if |t| > 0 && t[0] == '(' {
      t := t[1..];
    }
    if |t| > 0 && t[|t| - 1] == ')' {
      t := t[..|t| - 1];
    }
  }

  /** `preproc`, step by step: the strips, the two pointer loops, the slice. */
  method Preproc(token: string) returns (r: Option<string>)
    ensures r == Normalized(token)
  {
    var t := TrimParens(token);
    var i: int, j: int := 0, |t| - 1;
    while i <= |t| - 1 && !IsStart(t[i])
      invariant 0 <= i <= |t|
      invariant StartFrom(t, i) == StartFrom(t, 0)
      decreases |t| - i
    {
      i := i + 1;
    }
    while j > i && !IsEnd(t[j])
      invariant j < |t| && (i <= j || j == |t| - 1)
      invariant i < |t| ==> EndFrom(t, i, j) == EndFrom(t, i, |t| - 1)
      decreases j
    {
      j := j - 1;
    }
    SliceIsCandidate(t, i, j);
    t := t[i..j + 1];
    if t == [] {
      return None;
    }
    if t[|t| - 1] == '.' {
      t := t[..|t| - 1];
    }
    t := RemoveCommas(t);
    return Some(t);
  }

  /** RemoveCommas works piece by piece, so it keeps the order of what it keeps. */
  lemma {:induction false} RemoveCommasAppend(a: string, b: string)
    ensures RemoveCommas(a + b) == RemoveCommas(a) + RemoveCommas(b)
  {
    if a == [] {
      assert a + b == b;
    } else {
      assert (a + b)[0] == a[0] && (a + b)[1..] == a[1..] + b;
      RemoveCommasAppend(a[1..], b);
    }
  }

  /** A string without commas is left as it is. */
  lemma {:induction false} RemoveCommasNoComma(s: string)
    requires forall k :: 0 <= k < |s| ==> s[k] != ','
    ensures RemoveCommas(s) == s
  {
    if s != [] {
      RemoveCommasNoComma(s[1..]);
    }
  }

  /**
   * The candidate opens with a ValidStart character and, when it is longer
   * than one character, closes with a ValidEnd character; it is empty exactly
   * when s holds no ValidStart character at all.
   */
  lemma CandidateShape(s: string)
    ensures var c := Candidate(s);
      && (c == [] <==> forall k :: 0 <= k < |s| ==> !IsStart(s[k]))
      && (c != [] ==> IsStart(c[0]))
      && (|c| > 1 ==> IsEnd(c[|c| - 1]))
      && |c| <= |s|
  {
  }

  /**
   * The candidate is one contiguous piece of s: nothing before it may open
   * a number, and nothing after it may close one.
   */
  lemma CandidateBounds(s: string)
    ensures var c := Candidate(s);
      c != [] ==>
        exists pre, post :: s == pre + c + post
          && (forall m :: 0 <= m < |pre| ==> !IsStart(pre[m]))
          && (forall m :: 0 <= m < |post| ==> !IsEnd(post[m]))
  {
    var c := Candidate(s);
    var i := StartFrom(s, 0);
    if c != [] {
      var e := EndFrom(s, i, |s| - 1);
      var pre, post := s[..i], s[e + 1..];
      assert c == s[i..e + 1];
      assert s == pre + c + post;
      assert forall m :: 0 <= m < |pre| ==> !IsStart(pre[m]) by {
        forall m | 0 <= m < |pre| ensures !IsStart(pre[m]) {
          assert pre[m] == s[m];
        }
      }
      assert forall m :: 0 <= m < |post| ==> !IsEnd(post[m]) by {
        forall m | 0 <= m < |post| ensures !IsEnd(post[m]) {
          assert post[m] == s[e + 1 + m];
        }
      }
    }
  }

  /** Removing commas keeps every other character as often as it occurs. */
  lemma {:induction false} RemoveCommasKeeps(s: string, ch: char)
    requires ch != ','
    ensures multiset(RemoveCommas(s))[ch] == multiset(s)[ch]
  {
    if s != [] {
      RemoveCommasKeeps(s[1..], ch);
      assert s == [s[0]] + s[1..];
    }
  }

  /**
   * `preproc` returns None exactly when the token, after the strips, holds no
   * character of ValidStart.
   */
  lemma NormalizedNoneIff(token: string)
    ensures Normalized(token).None? <==>
      forall k :: 0 <= k < |StripParens(token)| ==> !IsStart(StripParens(token)[k])
  {
  }

  /**
   * A returned token holds no comma, is no longer than the raw token, and is
   * either "" (exactly when the candidate was ".") or opens with a ValidStart
   * character.
   */
  lemma NormalizedShape(token: string)
    ensures Normalized(token).Some? ==>
      var r := Normalized(token).value;
      && (forall k :: 0 <= k < |r| ==> r[k] != ',')
      && |r| <= |token|
      && (r == [] <==> Candidate(StripParens(token)) == ".")
      && (r != [] ==> IsStart(r[0]))
  {
  }

  /** The docstring's example: "(1)" gives "1". */
  lemma ExampleDocstring()
    ensures Normalized("(1)") == Some("1")
  {
    assert StripParens("(1)") == "1";
    assert Candidate("1") == "1";
    assert DropDot("1") == "1";
    RemoveCommasNoComma("1");
  }

  /** Only one pair of parentheses is stripped; the scan removes the rest. */
  lemma ExampleNested()
    ensures Normalized("((1))") == Some("1")
  {
    assert StripParens("((1))") == "(1)";
    assert StartFrom("(1)", 0) == 1;
    assert EndFrom("(1)", 1, 2) == 1;
    assert Candidate("(1)") == "1";
    assert DropDot("1") == "1";
    RemoveCommasNoComma("1");
  }

  /** Only one trailing '.' is dropped. */
  lemma ExampleDoubleDot()
    ensures Normalized("1..") == Some("1.")
  {
    assert StripParens("1..") == "1..";
    assert Candidate("1..") == "1..";
    assert DropDot("1..") == "1.";
    RemoveCommasNoComma("1.");
  }

  /** A lone "." is a candidate, and the dot rule leaves "". */
  lemma ExampleLoneDot()
    ensures Normalized(".") == Some("")
  {
  }

  /** Thousands separators go, the accounting parentheses carry no sign. */
  lemma ExampleAccounting()
    ensures Normalized("(1,234)") == Some("1234")
  {
    assert StripParens("(1,234)") == "1,234";
    assert Candidate("1,234") == "1,234";
    assert DropDot("1,234") == "1,234";
    assert "1,234" == "1," + "234";
    RemoveCommasAppend("1,", "234");
    RemoveCommasNoComma("234");
    assert RemoveCommas("1,") == "1";
    assert "1" + "234" == "1234";
  }

  /** A currency sign and a trailing comma fall outside the two scans. */
  lemma ExampleCurrency()
    ensures Normalized("$45.67,") == Some("45.67")
  {
    assert StripParens("$45.67,") == "$45.67,";
    assert StartFrom("$45.67,", 0) == 1;
    assert EndFrom("$45.67,", 1, 6) == 5;
    assert Candidate("$45.67,") == "45.67";
    assert DropDot("45.67") == "45.67";
    RemoveCommasNoComma("45.67");
  }

  /** A token without any ValidStart character gives None. */
  lemma ExampleNoNumber()
    ensures Normalized("abc") == None
    ensures Normalized("()") == None
  {
  }

  /**
   * A sign alone survives: '.' may close a number, so the slice is "-.",
   * and the trailing-dot strip leaves the bare sign.
   */
  lemma ExampleSignDot()
    ensures Normalized("-.") == Some("-")
  {
    assert StripParens("-.") == "-.";
    assert Candidate("-.") == "-.";
    assert DropDot("-.") == "-";
    RemoveCommasNoComma("-");
  }

  /**
   * `preproc` is not idempotent: a second pass drops one more '.' or ')'.
   */
  lemma NormalizedNotIdempotent()
    ensures Normalized("1..") == Some("1.") && Normalized("1.") == Some("1")
    ensures Normalized("1).") == Some("1)") && Normalized("1)") == Some("1")
  {
    ExampleDoubleDot();
    assert StripParens("1.") == "1.";
    assert Candidate("1.") == "1.";
    assert DropDot("1.") == "1";
    RemoveCommasNoComma("1");
    assert StripParens("1).") == "1).";
    assert Candidate("1).") == "1).";
    assert DropDot("1).") == "1)";
    RemoveCommasNoComma("1)");
    assert StripParens("1)") == "1";
    assert Candidate("1") == "1";
    assert DropDot("1") == "1";
  }
}
