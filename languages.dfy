// What each built-in matcher recognises, as sets of words: the inputs on which
// it stays running (viable prefixes) and the words it reports as a token once
// the next character ends them.  Proved against the step functions of
// include/strm/strm.hpp:80-100, 141-154, 183-189 and 208-212.  The word shapes
// are defined the way a scanner reads them, one last character at a time; the
// Meaning lemmas give the same shapes position by position.

module Languages {
  import opened Chars
  import opened Matchers

  /** The state after consuming s, one `get_next` per character. */
  function Run(m: Matcher, s: seq<char>): (r: Matcher)
    ensures SameKind(m, r)
    decreases |s|
  {
    if s == [] then m else Step(Run(m, s[..|s| - 1]), s[|s| - 1])
  }

  lemma RunSnoc(m: Matcher, s: seq<char>, c: char)
    ensures Run(m, s + [c]) == Step(Run(m, s), c)
  {
    assert (s + [c])[..|s|] == s;
  }

  predicate IdentStart(c: char) { IsLetter(c) || c == '_' }

  predicate IdentChar(c: char) { IsLetter(c) || IsDigit(c) || c == '_' }

  /** A C-like identifier: a letter or '_', then letters, digits and '_'. */
  ghost predicate IdentWord(s: seq<char>)
    decreases |s|
  {
    if |s| <= 1 then |s| == 1 && IdentStart(s[0])
    else IdentWord(s[..|s| - 1]) && IdentChar(s[|s| - 1])
  }

  /** A run of decimal digits, possibly empty. */
  ghost predicate Digits(s: seq<char>)
    decreases |s|
  {
    s == [] || (Digits(s[..|s| - 1]) && IsDigit(s[|s| - 1]))
  }

  /** Digits, then at most one '.', then digits. */
  ghost predicate FloatShape(s: seq<char>)
    decreases |s|
  {
    || s == []
    || (FloatShape(s[..|s| - 1]) && IsDigit(s[|s| - 1]))
    || (Digits(s[..|s| - 1]) && s[|s| - 1] == '.')
  }

  /** The words after which a value-initialised matcher of m's type is still running. */
  ghost predicate Viable(m: Matcher, s: seq<char>) {
    match m
    case Literal(data, _) => |s| <= |data| && s == data[..|s|]
    case Float(_) => FloatShape(s)
    case Identifier(_) => s == [] || IdentWord(s)
    case Integer(_) => Digits(s)
  }

  /** The words a matcher of m's type accepts as a whole token. */
  ghost predicate Token(m: Matcher, s: seq<char>) {
    match m
    case Literal(data, _) => s == data
    case Float(_) => s != [] && FloatShape(s)
    case Identifier(_) => IdentWord(s)
    case Integer(_) => s != [] && Digits(s)
  }

  /** Digits are the words whose every character is a digit. */
  lemma {:induction false} DigitsMeaning(s: seq<char>)
    ensures Digits(s) <==> forall i :: 0 <= i < |s| ==> IsDigit(s[i])
    decreases |s|
  {
    if s != [] {
      var p := s[..|s| - 1];
      DigitsMeaning(p);
      assert forall i :: 0 <= i < |p| ==> p[i] == s[i];
    }
  }

  /** Identifiers are the non-empty words starting with a letter or '_' and going on with identifier characters. */
  lemma {:induction false} IdentWordMeaning(s: seq<char>)
    ensures IdentWord(s) <==> |s| > 0 && IdentStart(s[0]) && forall i :: 1 <= i < |s| ==> IdentChar(s[i])
    decreases |s|
  {
    if |s| > 1 {
      var p := s[..|s| - 1];
      IdentWordMeaning(p);
      assert forall i :: 0 <= i < |p| ==> p[i] == s[i];
    }
  }

  /** Float shapes are the words of digits and '.' holding at most one '.'. */
  lemma {:induction false} FloatShapeMeaning(s: seq<char>)
    ensures FloatShape(s)
        <==> && (forall i :: 0 <= i < |s| ==> IsDigit(s[i]) || s[i] == '.')
             && (forall i, j :: 0 <= i < j < |s| && s[i] == '.' ==> s[j] != '.')
    decreases |s|
  {
    if s != [] {
      var p := s[..|s| - 1];
      var c := s[|s| - 1];
      FloatShapeMeaning(p);
      DigitsMeaning(p);
      assert forall i :: 0 <= i < |p| ==> p[i] == s[i];
      if c == '.' && !Digits(p) {
        var i :| 0 <= i < |p| && !IsDigit(p[i]);
        assert s[i] == p[i];
      }
    }
  }

  /** A word of digits is a float shape. */
  lemma {:induction false} DigitsAreFloatShape(s: seq<char>)
    requires Digits(s)
    ensures FloatShape(s)
    decreases |s|
  {
    if s != [] {
      DigitsAreFloatShape(s[..|s| - 1]);
    }
  }

  /** A literal that has consumed a prefix of its text sits at the index of the next character. */
  lemma {:induction false} LiteralRun(data: seq<char>, s: seq<char>)
    requires LiteralText(data) && |s| <= |data| && s == data[..|s|]
    ensures Run(Literal(data, 0), s) == Literal(data, |s|)
    decreases |s|
  {
    if s != [] {
      var p := s[..|s| - 1];
      assert p == data[..|p|];
      LiteralRun(data, p);
      assert s[|s| - 1] == data[|p|];
    }
  }

  /** An identifier is in state 0 before its first character and in state 1 after it. */
  lemma {:induction false} IdentifierRun(s: seq<char>)
    requires s == [] || IdentWord(s)
    ensures Run(Identifier(0), s) == Identifier(if s == [] then 0 else 1)
    decreases |s|
  {
    if s != [] {
      IdentifierRun(s[..|s| - 1]);
    }
  }

  /** An integer is in state 0 before its first digit and in state 1 after it. */
  lemma {:induction false} IntegerRun(s: seq<char>)
    requires Digits(s)
    ensures Run(Integer(0), s) == Integer(if s == [] then 0 else 1)
    decreases |s|
  {
    if s != [] {
      IntegerRun(s[..|s| - 1]);
    }
  }

  /** A float is in phase 0 at the start, 1 on the digits before a '.', and 2 once it has seen the '.'. */
  lemma {:induction false} FloatRun(s: seq<char>)
    requires FloatShape(s)
    ensures Run(Float(0), s) == Float(if s == [] then 0 else if Digits(s) then 1 else 2)
    decreases |s|
  {
    if s != [] {
      var p := s[..|s| - 1];
      if IsDigit(s[|s| - 1]) {
        FloatRun(p);
      } else {
        DigitsAreFloatShape(p);
        FloatRun(p);
      }
    }
  }

  /**
   * The language of each built-in matcher: on a viable word it is running, and the
   * next character keeps it running exactly when the longer word is viable;
   * otherwise it matches exactly when the word so far is a token, and fails if not.
   */
  lemma Language(m: Matcher, s: seq<char>, c: char)
    requires Viable(m, s)
    ensures StatusOf(Run(Fresh(m), s)) == Running
    ensures StatusOf(Step(Run(Fresh(m), s), c))
         == (if Viable(m, s + [c]) then Running else if Token(m, s) then Matched else Failed)
  {
    match m
    case Literal(data, _) => LiteralLanguage(data, |s|, c);
    case Float(_) => FloatLanguage(s, c);
    case Identifier(_) => IdentifierLanguage(s, c);
    case Integer(_) => IntegerLanguage(s, c);
  }

  lemma LiteralLanguage(data: seq<char>, k: nat, c: char)
    requires LiteralText(data) && k <= |data|
    ensures var m := Literal(data, 0);
            && StatusOf(Run(m, data[..k])) == Running
            && StatusOf(Step(Run(m, data[..k]), c))
               == (if Viable(m, data[..k] + [c]) then Running else if Token(m, data[..k]) then Matched else Failed)
  {
    var t := data[..k] + [c];
    LiteralRun(data, data[..k]);
    if k == |data| {
      assert data[..k] == data;
      assert !Viable(Literal(data, 0), t);
    } else if c == data[k] {
      assert t == data[..k + 1];
    } else {
      assert t[k] != data[..k + 1][k];
      assert data[..k] != data by {
        assert |data[..k]| < |data|;
      }
    }
  }

  lemma FloatLanguage(s: seq<char>, c: char)
    requires FloatShape(s)
    ensures StatusOf(Run(Float(0), s)) == Running
    ensures StatusOf(Step(Run(Float(0), s), c))
         == (if FloatShape(s + [c]) then Running else if s != [] then Matched else Failed)
  {
    var t := s + [c];
    assert t[..|s|] == s && t[|s|] == c;
    FloatRun(s);
  }

  lemma IdentifierLanguage(s: seq<char>, c: char)
    requires s == [] || IdentWord(s)
    ensures StatusOf(Run(Identifier(0), s)) == Running
    ensures StatusOf(Step(Run(Identifier(0), s), c))
         == (if IdentWord(s + [c]) then Running else if IdentWord(s) then Matched else Failed)
  {
    var t := s + [c];
    assert t[..|s|] == s && t[|s|] == c;
    IdentifierRun(s);
  }

  lemma IntegerLanguage(s: seq<char>, c: char)
    requires Digits(s)
    ensures StatusOf(Run(Integer(0), s)) == Running
    ensures StatusOf(Step(Run(Integer(0), s), c))
         == (if Digits(s + [c]) then Running else if s != [] then Matched else Failed)
  {
    var t := s + [c];
    assert t[..|s|] == s && t[|s|] == c;
    IntegerRun(s);
  }

  /** Viable words are closed under taking prefixes. */
  lemma ViablePrefix(m: Matcher, s: seq<char>, c: char)
    requires Viable(m, s + [c])
    ensures Viable(m, s)
  {
    var t := s + [c];
    assert t[..|s|] == s;
    match m
    case Literal(data, _) =>
      assert s == t[..|s|] == data[..|t|][..|s|];
    case Float(_) =>
      if !FloatShape(s) {
        DigitsAreFloatShape(s);
      }
    case Identifier(_) =>
    case Integer(_) =>
  }

  /** Hence viable words are closed under taking any prefix. */
  lemma {:induction false} ViablePrefixes(m: Matcher, s: seq<char>, j: nat)
    requires Viable(m, s) && j <= |s|
    ensures Viable(m, s[..j])
    decreases |s|
  {
    if j < |s| {
      var p := s[..|s| - 1];
      assert s == p + [s[|s| - 1]];
      ViablePrefix(m, p, s[|s| - 1]);
      ViablePrefixes(m, p, j);
      assert p[..j] == s[..j];
    } else {
      assert s[..j] == s;
    }
  }
}
