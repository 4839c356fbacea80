// The scenarios of tests/test.cpp:112-229, each as a reference lemma (which
// pattern wins and where the cursor stops) and a method that runs `match` on
// a fresh cursor and promises the values the test asserts.  Two more
// scenarios show how the driver as written leaves the cursor when the longest
// run ends in a failure.

module Scenarios {
  import opened Matchers
  import opened MatcherLists
  import opened Scanning
  import opened Driver

  const Hello: Text := "hello123\0"
  const Equals: Text := "= \0"
  const Number: Text := "123\0"
  const NumberXX: Text := "123xx\0"
  const Braces: Text := "{} struct 500\0"
  const Wussup: Text := "wussup54++{}\0"
  const Abx: Text := "abx\0"

  // "hello123" against "hello", "world", "bonjour": the first literal wins, 5 characters.

  const HelloCases: seq<Case<int>> := [Case(Literal("hello", 0), 0), Case(Literal("world", 0), 1), Case(Literal("bonjour", 0), 2)]

  lemma HelloBest()
    ensures var es := [Entry(0, Literal("hello", 0)), Entry(1, Literal("world", 0)), Entry(2, Literal("bonjour", 0))];
            Best(es, Hello, 0) == Pick(0, 5) && MaxLife(es, Hello, 0) == 5 && Hello[5] == '1'
  {
    assert Hello[0..5] == "hello";
    LiteralFound("hello", Hello, 0);
    assert Hello[0..0] == "world"[..0];
    LiteralBreaks("world", Hello, 0, 0);
    assert Hello[0..0] == "bonjour"[..0];
    LiteralBreaks("bonjour", Hello, 0, 0);
  }

  method HelloTest() returns (r: int, end: nat)
    ensures r == 0 && end == 5 && Hello[end] == '1'
  {
    var src := new Cursor(Hello, 0);
    assert Initial(Kinds(HelloCases)).entries == [Entry(0, Literal("hello", 0)), Entry(1, Literal("world", 0)), Entry(2, Literal("bonjour", 0))];
    HelloBest();
    r := Match(src, -1, HelloCases);
    end := src.pos;
  }

  // "= " against "==", "=": "==" breaks off after one character, "=" matches it.

  const EqualsCases: seq<Case<int>> := [Case(Literal("==", 0), 0), Case(Literal("=", 0), 1)]

  lemma EqualsBest()
    ensures var es := [Entry(0, Literal("==", 0)), Entry(1, Literal("=", 0))];
            Best(es, Equals, 0) == Pick(1, 1) && MaxLife(es, Equals, 0) == 1 && Equals[1] == ' '
  {
    assert Equals[0..1] == "==" [..1];
    LiteralBreaks("==", Equals, 0, 1);
    assert Equals[0..1] == "=";
    LiteralFound("=", Equals, 0);
  }

  method EqualsTest() returns (r: int, end: nat)
    ensures r == 1 && end == 1 && Equals[end] == ' '
  {
    var src := new Cursor(Equals, 0);
    assert Initial(Kinds(EqualsCases)).entries == [Entry(0, Literal("==", 0)), Entry(1, Literal("=", 0))];
    EqualsBest();
    r := Match(src, -1, EqualsCases);
    end := src.pos;
  }

  // "123" against "nope", an integer, "12": the integer's 3 digits beat the 2 of "12".

  const NumberCases: seq<Case<int>> := [Case(Literal("nope", 0), 0), Case(Integer(0), 1), Case(Literal("12", 0), 2)]

  lemma NumberBest()
    ensures var es := [Entry(0, Literal("nope", 0)), Entry(1, Integer(0)), Entry(2, Literal("12", 0))];
            Best(es, Number, 0) == Pick(1, 3) && MaxLife(es, Number, 0) == 3 && Number[3] == '\0'
  {
    assert Number[0..0] == "nope"[..0];
    LiteralBreaks("nope", Number, 0, 0);
    DigitRun(Number, 0, 3);
    assert Number[0..2] == "12";
    LiteralFound("12", Number, 0);
  }

  method NumberTest() returns (r: int, end: nat)
    ensures r == 1 && end == 3 && Number[end] == '\0'
  {
    var src := new Cursor(Number, 0);
    assert Initial(Kinds(NumberCases)).entries == [Entry(0, Literal("nope", 0)), Entry(1, Integer(0)), Entry(2, Literal("12", 0))];
    NumberBest();
    r := Match(src, -1, NumberCases);
    end := src.pos;
  }

  // "123xx" against "nope", "123", an integer: a tie of 3 characters goes to the earlier "123".

  const PriorityCases: seq<Case<int>> := [Case(Literal("nope", 0), 0), Case(Literal("123", 0), 1), Case(Integer(0), 2)]

  lemma PriorityBest()
    ensures var es := [Entry(0, Literal("nope", 0)), Entry(1, Literal("123", 0)), Entry(2, Integer(0))];
            Best(es, NumberXX, 0) == Pick(1, 3) && MaxLife(es, NumberXX, 0) == 3 && NumberXX[3] == 'x'
  {
    assert NumberXX[0..0] == "nope"[..0];
    LiteralBreaks("nope", NumberXX, 0, 0);
    assert NumberXX[0..3] == "123";
    LiteralFound("123", NumberXX, 0);
    DigitRun(NumberXX, 0, 3);
  }

  method PriorityTest() returns (r: int, end: nat)
    ensures r == 1 && end == 3 && NumberXX[end] == 'x'
  {
    var src := new Cursor(NumberXX, 0);
    assert Initial(Kinds(PriorityCases)).entries == [Entry(0, Literal("nope", 0)), Entry(1, Literal("123", 0)), Entry(2, Integer(0))];
    PriorityBest();
    r := Match(src, -1, PriorityCases);
    end := src.pos;
  }

  // "hello123" from position 5 against "nope", an integer, "123": a tie that goes to the integer.

  const ResumeCases: seq<Case<int>> := [Case(Literal("nope", 0), 0), Case(Integer(0), 1), Case(Literal("123", 0), 2)]

  lemma ResumeBest()
    ensures var es := [Entry(0, Literal("nope", 0)), Entry(1, Integer(0)), Entry(2, Literal("123", 0))];
            Best(es, Hello, 5) == Pick(1, 3) && MaxLife(es, Hello, 5) == 3 && Hello[8] == '\0'
  {
    assert Hello[5..5] == "nope"[..0];
    LiteralBreaks("nope", Hello, 5, 0);
    DigitRun(Hello, 5, 3);
    assert Hello[5..8] == "123";
    LiteralFound("123", Hello, 5);
  }

  method ResumeTest() returns (r: int, end: nat)
    ensures r == 1 && end == 8 && Hello[end] == '\0'
  {
    var src := new Cursor(Hello, 5);
    assert Initial(Kinds(ResumeCases)).entries == [Entry(0, Literal("nope", 0)), Entry(1, Integer(0)), Entry(2, Literal("123", 0))];
    ResumeBest();
    r := Match(src, -1, ResumeCases);
    end := src.pos;
  }

  // "{} struct 500" against "{", "}": one character, the brace literal.

  const BracesCases: seq<Case<int>> := [Case(Literal("{", 0), 0), Case(Literal("}", 0), 1)]

  lemma BracesBest()
    ensures var es := [Entry(0, Literal("{", 0)), Entry(1, Literal("}", 0))];
            Best(es, Braces, 0) == Pick(0, 1) && MaxLife(es, Braces, 0) == 1 && Braces[1] == '}'
  {
    assert Braces[0..1] == "{";
    LiteralFound("{", Braces, 0);
    assert Braces[0..0] == "}"[..0];
    LiteralBreaks("}", Braces, 0, 0);
  }

  method BracesTest() returns (r: int, end: nat)
    ensures r == 0 && end == 1 && Braces[end] == '}'
  {
    var src := new Cursor(Braces, 0);
    assert Initial(Kinds(BracesCases)).entries == [Entry(0, Literal("{", 0)), Entry(1, Literal("}", 0))];
    BracesBest();
    r := Match(src, -1, BracesCases);
    end := src.pos;
  }

  // "wussup54++{}" against "wu", an identifier, an integer: the 8-character identifier wins.

  const WussupCases: seq<Case<int>> := [Case(Literal("wu", 0), 0), Case(Identifier(0), 1), Case(Integer(0), 2)]

  lemma WussupBest()
    ensures var es := [Entry(0, Literal("wu", 0)), Entry(1, Identifier(0)), Entry(2, Integer(0))];
            Best(es, Wussup, 0) == Pick(1, 8) && MaxLife(es, Wussup, 0) == 8 && Wussup[8] == '+'
  {
    assert Wussup[0..2] == "wu";
    LiteralFound("wu", Wussup, 0);
    IdentifierFound(Wussup, 0, 8);
    DigitRun(Wussup, 0, 0);
  }

  method WussupTest() returns (r: int, end: nat)
    ensures r == 1 && end == 8 && Wussup[end] == '+'
  {
    var src := new Cursor(Wussup, 0);
    assert Initial(Kinds(WussupCases)).entries == [Entry(0, Literal("wu", 0)), Entry(1, Identifier(0)), Entry(2, Integer(0))];
    WussupBest();
    r := Match(src, -1, WussupCases);
    end := src.pos;
  }

  // "abx" against "abc", "a": "a" wins with one character, but "abc" ran for two
  // before failing, and the cursor stays after them.

  const OvershootCases: seq<Case<int>> := [Case(Literal("abc", 0), 0), Case(Literal("a", 0), 1)]

  lemma OvershootBest()
    ensures var es := [Entry(0, Literal("abc", 0)), Entry(1, Literal("a", 0))];
            Best(es, Abx, 0) == Pick(1, 1) && MaxLife(es, Abx, 0) == 2 && Abx[2] == 'x'
  {
    assert Abx[0..2] == "abc"[..2];
    LiteralBreaks("abc", Abx, 0, 2);
    assert Abx[0..1] == "a";
    LiteralFound("a", Abx, 0);
  }

  method OvershootTest() returns (r: int, end: nat)
    ensures r == 1 && end == 2 && Abx[end] == 'x'
  {
    var src := new Cursor(Abx, 0);
    assert Initial(Kinds(OvershootCases)).entries == [Entry(0, Literal("abc", 0)), Entry(1, Literal("a", 0))];
    OvershootBest();
    r := Match(src, -1, OvershootCases);
    end := src.pos;
  }

  // "abx" against "abc" alone: nothing matches and the default is returned, but
  // the cursor is not restored to where the scan began.

  const NoMatchCases: seq<Case<int>> := [Case(Literal("abc", 0), 0)]

  lemma NoMatchBest()
    ensures var es := [Entry(0, Literal("abc", 0))];
            Best(es, Abx, 0) == NoPick && MaxLife(es, Abx, 0) == 2 && Abx[2] == 'x'
  {
    assert Abx[0..2] == "abc"[..2];
    LiteralBreaks("abc", Abx, 0, 2);
  }

  method NoMatchTest() returns (r: int, end: nat)
    ensures r == -1 && end == 2 && Abx[end] == 'x'
  {
    var src := new Cursor(Abx, 0);
    assert Initial(Kinds(NoMatchCases)).entries == [Entry(0, Literal("abc", 0))];
    NoMatchBest();
    r := Match(src, -1, NoMatchCases);
    end := src.pos;
  }
}
