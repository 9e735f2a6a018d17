/**
 * Whole documents run through the scan with the decimal parser standing in
 * for `float()`.
 */
module Scenarios {
  import opened Wrappers
  import opened Normalizer
  import opened TextSplit
  import opened Largest
  import Decimal

  /** The values of a page read off its words, one token at a time. */
  lemma PageOfWords(ws: seq<string>, parse: Parser)
    requires forall k :: 0 <= k < |ws| ==> IsWord(ws[k])
    ensures Pager(parse)(Join(ws)) == TokensValues(ws, Valuer(parse))
  {
    SplitJoin(ws);
  }

  /** The values of two tokens. */
  lemma TwoTokens(a: string, b: string, value: string -> Option<real>)
    ensures TokensValues([a, b], value) == Values(value(a)) + Values(value(b))
  {
    var ws := [a, b];
    assert ws[..1] == [a] && [a][..0] == [];
    assert TokensValues([a], value) == Values(value(a));
  }

  /** The values of a page of two words. */
  lemma TwoWords(a: string, b: string, parse: Parser)
    requires IsWord(a) && IsWord(b)
    ensures Pager(parse)(Join([a, b])) == Values(TokenValue(a, parse)) + Values(TokenValue(b, parse))
  {
    var ws := [a, b];
    assert forall k :: 0 <= k < |ws| ==> IsWord(ws[k]);
    PageOfWords(ws, parse);
    TwoTokens(a, b, Valuer(parse));
  }

  /** The values of two pages. */
  lemma TwoPages(x: string, y: string, pageValues: string -> seq<real>)
    ensures Gather([x, y], pageValues) == pageValues(x) + pageValues(y)
  {
    var doc := [x, y];
    assert doc[..1] == [x] && [x][..0] == [];
    assert Gather([x], pageValues) == [] + pageValues(x);
  }

  /** "Sum" holds no ValidStart character. */
  lemma WordSum()
    ensures TokenValue("Sum", Decimal.Parse) == None
  {
  }

  /** "(1,234)" cleans to "1234". */
  lemma WordAccounting()
    ensures TokenValue("(1,234)", Decimal.Parse) == Some(1234.0)
  {
    ExampleAccounting();
    Decimal.ParseWhole();
  }

  /** "$45.67," cleans to "45.67". */
  lemma WordCurrency()
    ensures TokenValue("$45.67,", Decimal.Parse) == Some(45.67)
  {
    ExampleCurrency();
    Decimal.ParseFraction();
  }

  /** "." cleans to "", which is no numeral. */
  lemma WordDot()
    ensures TokenValue(".", Decimal.Parse) == None
  {
  }

  /** The first page, "Sum (1,234)", yields 1234 alone. */
  lemma FirstPage()
    ensures Pager(Decimal.Parse)(Join(["Sum", "(1,234)"])) == [1234.0]
  {
    assert IsWord("Sum") && IsWord("(1,234)");
    TwoWords("Sum", "(1,234)", Decimal.Parse);
    WordSum();
    WordAccounting();
  }

  /** The second page, "$45.67, .", yields 45.67 alone. */
  lemma SecondPage()
    ensures Pager(Decimal.Parse)(Join(["$45.67,", "."])) == [45.67]
  {
    assert IsWord("$45.67,") && IsWord(".");
    TwoWords("$45.67,", ".", Decimal.Parse);
    WordCurrency();
    WordDot();
  }

  /**
   * Two pages: "Sum (1,234)" and "$45.67, .". The words "Sum" and "."
   * yield nothing ("." is cleaned to "", which does not parse) and the
   * result is 1234, found on the first page.
   */
  lemma TwoPageDocument()
    ensures MaxOf(DocValues([Join(["Sum", "(1,234)"]), Join(["$45.67,", "."])], Decimal.Parse)) == Some(1234.0)
  {
    var x, y := Join(["Sum", "(1,234)"]), Join(["$45.67,", "."]);
    TwoPages(x, y, Pager(Decimal.Parse));
    FirstPage();
    SecondPage();
    assert DocValues([x, y], Decimal.Parse) == [1234.0, 45.67];
    MaxOfPush([1234.0], 45.67);
  }

  /** "()" is stripped to nothing. */
  lemma WordParens()
    ensures TokenValue("()", Decimal.Parse) == None
  {
  }

  /** "--" cleans to "-", which is no numeral. */
  lemma WordDashes()
    ensures TokenValue("--", Decimal.Parse) == None
  {
  }

  /** The page "()  --" yields nothing. */
  lemma ParensAndDashesPage()
    ensures Pager(Decimal.Parse)(Join(["()", "--"])) == []
  {
    assert IsWord("()") && IsWord("--");
    TwoWords("()", "--", Decimal.Parse);
    WordParens();
    WordDashes();
  }

  /** The page "." yields nothing. */
  lemma DotPage()
    ensures Pager(Decimal.Parse)(".") == []
  {
    assert IsWord(".");
    PageOfWords(["."], Decimal.Parse);
    assert ["."][..0] == [];
    WordDot();
  }

  /**
   * A document whose tokens are "()", "--" and "." has no result: each
   * cleans to nothing or to a string that does not parse.
   */
  lemma NothingToFind()
    ensures MaxOf(DocValues([Join(["()", "--"]), "."], Decimal.Parse)).None?
  {
    var x := Join(["()", "--"]);
    ParensAndDashesPage();
    DotPage();
    TwoPages(x, ".", Pager(Decimal.Parse));
  }
}
