/**
 * `find_largest_number` of extract_largest_number.py: every whitespace token
 * of every page goes through `preproc`, the survivors that parse as numbers
 * are compared with a running maximum, and the result is that maximum, or
 * None when nothing parsed anywhere.
 *
 * A document is the sequence of its pages' extracted texts. The number
 * parser is a parameter: `Decimal.Parse` is one choice of it.
 *
 * The facts about the scan are proved for any valuation of tokens and any
 * valuation of pages (TokensValues, Gather), and then read for the one the
 * source uses (Valuer, Pager, DocValues).
 */
module Largest {
  import opened Wrappers
  import opened Normalizer
  import opened TextSplit

  type Parser = string -> Option<real>

  /**
   * What a `preproc` result yields (lines 84-96): its parsed value, or None
   * when it is None, empty, fails the defensive start-character test, or
   * does not parse.
   */
  function Accept(pre: Option<string>, parse: Parser): Option<real>
  {
    if pre.None? || pre.value == [] || !IsStart(pre.value[0]) then None
    else parse(pre.value)
  }

  /** What one raw token yields. */
  function TokenValue(token: string, parse: Parser): Option<real>
  {
    Accept(Normalized(token), parse)
  }

  /** TokenValue with the parser fixed, as one function of the token. */
  function Valuer(parse: Parser): string -> Option<real>
  {
    t => TokenValue(t, parse)
  }

  /** The value as a sequence of zero or one elements. */
  function Values(v: Option<real>): seq<real>
  {
    if v.None? then [] else [v.value]
  }

  /** The values the tokens yield, in token order. */
  function TokensValues(tokens: seq<string>, value: string -> Option<real>): seq<real>
    decreases |tokens|
  {
    if tokens == [] then []
    else TokensValues(tokens[..|tokens| - 1], value) + Values(value(tokens[|tokens| - 1]))
  }

  /** The values the tokens of one page's text yield. */
  function PageValues(text: string, value: string -> Option<real>): seq<real>
  {
    TokensValues(Split(text), value)
  }

  /** PageValues with the parser fixed, as one function of the text. */
  function Pager(parse: Parser): string -> seq<real>
  {
    text => PageValues(text, Valuer(parse))
  }

  /** The values of the pages, page after page. */
  function Gather(pages: seq<string>, pageValues: string -> seq<real>): seq<real>
    decreases |pages|
  {
    if pages == [] then []
    else Gather(pages[..|pages| - 1], pageValues) + pageValues(pages[|pages| - 1])
  }

  /** The values the tokens of a document yield, in scan order. */
  function DocValues(pages: seq<string>, parse: Parser): seq<real>
  {
    Gather(pages, Pager(parse))
  }

  /** The largest of the values, or None for none at all. */
  function MaxOf(vs: seq<real>): (m: Option<real>)
    ensures m.None? <==> vs == []
    ensures m.Some? ==> m.value in vs
    ensures m.Some? ==> forall k :: 0 <= k < |vs| ==> vs[k] <= m.value
    decreases |vs|
  {
    if vs == [] then None
    else
      var last := vs[|vs| - 1];
      match MaxOf(vs[..|vs| - 1])
      case None => Some(last)
      case Some(x) => if last > x then Some(last) else Some(x)
  }

  /** One more token appends its value, if it has one. */
  lemma TokensValuesStep(tokens: seq<string>, k: nat, value: string -> Option<real>)
    requires k < |tokens|
    ensures TokensValues(tokens[..k + 1], value) ==
      TokensValues(tokens[..k], value) + Values(value(tokens[k]))
  {
    assert tokens[..k + 1][..k] == tokens[..k];
  }

  /** Appending the values of a token to what was seen before. */
  lemma AppendValues(before: seq<real>, rest: seq<real>, v: Option<real>)
    ensures v.None? ==> before + (rest + Values(v)) == before + rest
    ensures v.Some? ==> before + (rest + Values(v)) == before + rest + [v.value]
  {
  }

  /** One more page appends its values. */
  lemma GatherStep(pages: seq<string>, p: nat, pageValues: string -> seq<real>)
    requires p < |pages|
    ensures Gather(pages[..p + 1], pageValues) == Gather(pages[..p], pageValues) + pageValues(pages[p])
  {
    assert pages[..p + 1][..p] == pages[..p];
  }

  /**
   * The update of lines 99-100: the largest of the values and one more is
   * that one when it is strictly larger than the largest so far (or when
   * there were none), and otherwise the largest so far.
   */
  lemma MaxOfPush(vs: seq<real>, v: real)
    ensures MaxOf(vs + [v]) ==
      if MaxOf(vs).None? || v > MaxOf(vs).value then Some(v) else MaxOf(vs)
  {
  }

  /**
   * `find_largest_number`: nested loops over pages and tokens with a running
   * maximum, updated only on a strictly larger value. None plays the part of
   * the `-inf` starting value.
   */
  method FindLargestNumber(pages: seq<string>, parse: Parser) returns (largest: Option<real>)
    ensures largest == MaxOf(DocValues(pages, parse))
    ensures largest.None? <==> DocValues(pages, parse) == []
    ensures largest.Some? ==> largest.value in DocValues(pages, parse)
    ensures largest.Some? ==> forall k :: 0 <= k < |DocValues(pages, parse)| ==>
      DocValues(pages, parse)[k] <= largest.value
  {
    ghost var valuation, pager := Valuer(parse), Pager(parse);
    var maxValue: Option<real> := None;
    ghost var seen: seq<real> := [];
    for p := 0 to |pages|
      invariant seen == Gather(pages[..p], pager)
      invariant maxValue == MaxOf(seen)
    {
      var text := pages[p];
      var tokens := Split(text);
      ghost var before := seen;
      assert before + TokensValues(tokens[..0], valuation) == seen;
      for k := 0 to |tokens|
        invariant seen == before + TokensValues(tokens[..k], valuation)
        invariant maxValue == MaxOf(seen)
      {
        var preprocToken := Preproc(tokens[k]);
        TokensValuesStep(tokens, k, valuation);
        assert valuation(tokens[k]) == Accept(preprocToken, parse);
        AppendValues(before, TokensValues(tokens[..k], valuation), Accept(preprocToken, parse));
        if preprocToken.None? || preprocToken.value == [] {
          continue;
        }
        if IsStart(preprocToken.value[0]) {
          var value := parse(preprocToken.value);
          if value.None? {
            continue;
          }
          MaxOfPush(seen, value.value);
          if maxValue.None? || value.value > maxValue.value {
            maxValue := Some(value.value);
          }
          seen := seen + [value.value];
        }
      }
      assert tokens[..|tokens|] == tokens;
      assert pager(text) == TokensValues(tokens, valuation);
      GatherStep(pages, p, pager);
    }
    assert pages[..|pages|] == pages;
    largest := maxValue;
  }

  /** The larger of two partial maxima. */
  function Merge(a: Option<real>, b: Option<real>): Option<real>
  {
    if a.None? then b
    else if b.None? then a
    else if b.value > a.value then b
    else a
  }

  /** A value is among the token values exactly when some token yields it. */
  lemma {:induction false} TokensValuesMembership(tokens: seq<string>, value: string -> Option<real>, v: real)
    ensures v in TokensValues(tokens, value) <==>
      exists t :: t in tokens && value(t) == Some(v)
    decreases |tokens|
  {
    if tokens != [] {
      var init := tokens[..|tokens| - 1];
      var last := tokens[|tokens| - 1];
      TokensValuesMembership(init, value, v);
      assert tokens == init + [last];
      if v in TokensValues(tokens, value) {
        if v in TokensValues(init, value) {
          var t :| t in init && value(t) == Some(v);
          assert t in tokens;
        } else {
          assert value(last) == Some(v);
        }
      }
      if exists t :: t in tokens && value(t) == Some(v) {
        var t :| t in tokens && value(t) == Some(v);
        if t != last {
          assert t in init;
        }
      }
    }
  }

  /** A value is among the pages' values exactly when some page has it. */
  lemma {:induction false} GatherMembership(pages: seq<string>, pageValues: string -> seq<real>, v: real)
    ensures v in Gather(pages, pageValues) <==>
      exists p :: 0 <= p < |pages| && v in pageValues(pages[p])
    decreases |pages|
  {
    if pages != [] {
      var init := pages[..|pages| - 1];
      var n := |pages| - 1;
      GatherMembership(init, pageValues, v);
      if v in Gather(pages, pageValues) && v in Gather(init, pageValues) {
        var p :| 0 <= p < |init| && v in pageValues(init[p]);
        assert pages[p] == init[p];
      }
      if exists p :: 0 <= p < |pages| && v in pageValues(pages[p]) {
        var p :| 0 <= p < |pages| && v in pageValues(pages[p]);
        if p < n {
          assert init[p] == pages[p];
        }
      }
    }
  }

  /**
   * A value is among the document's values exactly when some token of some
   * page yields it.
   */
  lemma DocValuesMembership(pages: seq<string>, parse: Parser, v: real)
    ensures v in DocValues(pages, parse) <==>
      exists p, t :: 0 <= p < |pages| && t in Split(pages[p]) && TokenValue(t, parse) == Some(v)
  {
    GatherMembership(pages, Pager(parse), v);
    forall p | 0 <= p < |pages|
      ensures v in Pager(parse)(pages[p]) <==>
        exists t :: t in Split(pages[p]) && TokenValue(t, parse) == Some(v)
    {
      TokensValuesMembership(Split(pages[p]), Valuer(parse), v);
    }
  }

  /**
   * The line 88 test never rejects anything: a token's value is the parse of
   * its `preproc` result whenever that result is present and non-empty.
   */
  lemma TokenValueSkipsOnlyEmpty(token: string, parse: Parser)
    ensures TokenValue(token, parse) ==
      if Normalized(token).None? || Normalized(token).value == [] then None
      else parse(Normalized(token).value)
  {
  }

  /**
   * The result is None exactly when no token on any page has a `preproc`
   * result that is non-empty and parses; an empty document gives None.
   */
  lemma LargestNoneIff(pages: seq<string>, parse: Parser)
    ensures MaxOf(DocValues(pages, parse)).None? <==>
      forall p, t :: 0 <= p < |pages| && t in Split(pages[p]) ==>
        Normalized(t).None? || Normalized(t).value == [] || parse(Normalized(t).value).None?
    ensures pages == [] ==> MaxOf(DocValues(pages, parse)).None?
  {
    var vs := DocValues(pages, parse);
    forall p, t | 0 <= p < |pages| && t in Split(pages[p])
      ensures TokenValue(t, parse).None? <==>
        Normalized(t).None? || Normalized(t).value == [] || parse(Normalized(t).value).None?
    {
      TokenValueSkipsOnlyEmpty(t, parse);
    }
    if vs != [] {
      DocValuesMembership(pages, parse, vs[0]);
    } else {
      forall p, t | 0 <= p < |pages| && t in Split(pages[p])
        ensures TokenValue(t, parse).None?
      {
        if TokenValue(t, parse).Some? {
          DocValuesMembership(pages, parse, TokenValue(t, parse).value);
        }
      }
    }
  }

  /**
   * When present, the result is at least the value of every token of every
   * page, and it is the value of one of them.
   */
  lemma LargestIsMaximum(pages: seq<string>, parse: Parser)
    ensures MaxOf(DocValues(pages, parse)).Some? ==>
      var m := MaxOf(DocValues(pages, parse)).value;
      && (forall p, t :: 0 <= p < |pages| && t in Split(pages[p]) && TokenValue(t, parse).Some? ==>
            TokenValue(t, parse).value <= m)
      && (exists p, t :: 0 <= p < |pages| && t in Split(pages[p]) && TokenValue(t, parse) == Some(m))
  {
    var vs := DocValues(pages, parse);
    if MaxOf(vs).Some? {
      var m := MaxOf(vs).value;
      DocValuesMembership(pages, parse, m);
      forall p, t | 0 <= p < |pages| && t in Split(pages[p]) && TokenValue(t, parse).Some?
        ensures TokenValue(t, parse).value <= m
      {
        DocValuesMembership(pages, parse, TokenValue(t, parse).value);
      }
    }
  }

  /** The running maximum never decreases as more values are seen. */
  lemma MaxOfMonotone(a: seq<real>, b: seq<real>)
    ensures MaxOf(a).Some? ==> MaxOf(a + b).Some? && MaxOf(a).value <= MaxOf(a + b).value
  {
    if MaxOf(a).Some? {
      var k :| 0 <= k < |a| && a[k] == MaxOf(a).value;
      assert (a + b)[k] == a[k];
    }
  }

  /**
   * The maximum of two runs of values is the larger of their maxima: pages,
   * or any split of the tokens, can be reduced apart and merged.
   */
  lemma {:induction false} MaxOfAppend(a: seq<real>, b: seq<real>)
    ensures MaxOf(a + b) == Merge(MaxOf(a), MaxOf(b))
    decreases |b|
  {
    if b == [] {
      assert a + b == a;
    } else {
      var init := b[..|b| - 1];
      var last := b[|b| - 1];
      assert a + b == (a + init) + [last];
      assert b == init + [last];
      MaxOfAppend(a, init);
      MaxOfPush(a + init, last);
      MaxOfPush(init, last);
    }
  }

  /**
   * The maximum depends only on which values occur, not on their order or
   * repetition.
   */
  lemma MaxOfSameValues(a: seq<real>, b: seq<real>)
    requires forall x :: x in a <==> x in b
    ensures MaxOf(a) == MaxOf(b)
  {
  }

  /** The token values of two runs of tokens, one after the other. */
  lemma {:induction false} TokensValuesAppend(a: seq<string>, b: seq<string>, value: string -> Option<real>)
    ensures TokensValues(a + b, value) == TokensValues(a, value) + TokensValues(b, value)
    decreases |b|
  {
    if b == [] {
      assert a + b == a;
    } else {
      var init, last := b[..|b| - 1], b[|b| - 1];
      var ab := a + b;
      assert ab[..|ab| - 1] == a + init;
      assert ab[|ab| - 1] == last;
      TokensValuesAppend(a, init, value);
    }
  }

  /**
   * A token that yields nothing is skipped without ending the scan: the
   * values before it and after it are all still seen, and the maximum is
   * what it would be without that token.
   */
  lemma SkippedToken(before: seq<string>, t: string, after: seq<string>, value: string -> Option<real>)
    requires value(t).None?
    ensures TokensValues(before + [t] + after, value) == TokensValues(before, value) + TokensValues(after, value)
    ensures MaxOf(TokensValues(before + [t] + after, value)) == MaxOf(TokensValues(before + after, value))
  {
    TokensValuesAppend(before + [t], after, value);
    TokensValuesAppend(before, [t], value);
    TokensValuesAppend(before, after, value);
    assert [t][..0] == [];
    assert TokensValues([t], value) == [];
    assert TokensValues(before, value) + [] == TokensValues(before, value);
  }

  /** The values of two runs of pages, one after the other. */
  lemma {:induction false} GatherAppend(a: seq<string>, b: seq<string>, pageValues: string -> seq<real>)
    ensures Gather(a + b, pageValues) == Gather(a, pageValues) + Gather(b, pageValues)
    decreases |b|
  {
    if b == [] {
      assert a + b == a;
    } else {
      var init, last := b[..|b| - 1], b[|b| - 1];
      var ab := a + b;
      assert ab[..|ab| - 1] == a + init;
      assert ab[|ab| - 1] == last;
      GatherAppend(a, init, pageValues);
    }
  }

  /**
   * Pages can be scanned apart and their maxima merged: the result for a
   * document is the larger of the results for its two halves.
   */
  lemma PagesMerge(a: seq<string>, b: seq<string>, parse: Parser)
    ensures MaxOf(DocValues(a + b, parse)) == Merge(MaxOf(DocValues(a, parse)), MaxOf(DocValues(b, parse)))
  {
    GatherAppend(a, b, Pager(parse));
    MaxOfAppend(DocValues(a, parse), DocValues(b, parse));
  }
}
