// The four built-in matchers of include/strm/strm.hpp:63-224: value-typed state
// machines with a step function (`get_next`), a status, dispatch bounds
// (`min`/`max`) and `can_fail`.  States keep the C++ encoding: a literal's
// state is its `index`, the other matchers' state is `state_`, and in both
// -2 means matched (`match_`) and -1 means failed (`fail_`).

module Matchers {
  import opened Chars

  /** `matcher_status`. */
  datatype Status = Running | Matched | Failed

  /** `match_` and `fail_`. */
  const MatchState: int := -2
  const FailState: int := -1

  /** A matcher's type and its state. */
  datatype MatcherState =
    | Literal(data: seq<char>, index: int)  // `string_matcher<str>`; data is str without its NUL
    | Float(state: int)                     // `float_matcher`
    | Identifier(state: int)                // `identifier_matcher`
    | Integer(state: int)                   // `integer_matcher`

  /** The static bounds of `float_matcher` and `identifier_matcher` (StaticBounds shows they are the source's folds). */
  const FloatLow: char := '.'
  const FloatHigh: char := '9'
  const IdentStartLow: char := 'A'
  const IdentStartHigh: char := 'z'
  const IdentLow: char := '0'
  const IdentHigh: char := 'z'

  /** A literal's text: non-empty, ASCII, without an embedded NUL. */
  predicate LiteralText(data: seq<char>) {
    |data| > 0 && forall i :: 0 <= i < |data| ==> '\U{1}' <= data[i] <= '\U{7F}'
  }

  /** The states the source can reach from a value-initialised matcher. */
  predicate Wf(m: MatcherState) {
    match m
    case Literal(data, index) => LiteralText(data) && MatchState <= index <= |data|
    case Float(s) => MatchState <= s <= 2
    case Identifier(s) => MatchState <= s <= 1
    case Integer(s) => MatchState <= s <= 1
  }

  /** A matcher: a state the source can reach (Step keeps every matcher reachable). */
  type Matcher = m: MatcherState | Wf(m) witness Integer(0)

  /** Two matchers of the same type (for literals: the same string). */
  predicate SameKind(m: Matcher, n: Matcher) {
    match m
    case Literal(data, _) => n.Literal? && n.data == data
    case Float(_) => n.Float?
    case Identifier(_) => n.Identifier?
    case Integer(_) => n.Integer?
  }

  /** The raw state, whichever matcher it is. */
  function Code(m: Matcher): int {
    match m
    case Literal(_, index) => index
    case Float(s) => s
    case Identifier(s) => s
    case Integer(s) => s
  }

  /** `status()`: -2 is matched, -1 is failed, anything else is running. */
  function StatusOf(m: Matcher): Status {
    if Code(m) == MatchState then Matched
    else if Code(m) == FailState then Failed
    else Running
  }

  /**
   * The status encoding on reachable states: running states are the
   * non-negative ones (an index into the literal, or a matcher's phase), and
   * the terminal states are exactly the two negative codes.
   */
  lemma StatusCodes(m: Matcher)
    ensures StatusOf(m) == Running <==> 0 <= Code(m)
    ensures StatusOf(m) == Matched <==> Code(m) == MatchState
    ensures StatusOf(m) == Failed <==> Code(m) == FailState
  {
  }

  /** The value-initialised matcher of the same type (`Ts{}`), which every scan starts from. */
  function Fresh(m: Matcher): (r: Matcher)
    ensures SameKind(m, r) && Code(r) == 0
    ensures StatusOf(r) == Running && CanFail(r)
  {
    match m
    case Literal(data, _) => Literal(data, 0)
    case Float(_) => Float(0)
    case Identifier(_) => Identifier(0)
    case Integer(_) => Integer(0)
  }

  /** `float_matcher::next_state`. */
  function FloatNext(s: int, c: char): int {
    match s
    case 0 => if IsDigit(c) then 1 else if c == '.' then 2 else FailState
    case 1 => if IsDigit(c) then 1 else if c == '.' then 2 else MatchState
    case 2 => if IsDigit(c) then 2 else MatchState
    case _ => s
  }

  /** `get_next(c)`: the state after consuming c, for every state, terminal ones included. */
  function Step(m: Matcher, c: char): (r: Matcher)
    ensures SameKind(m, r)
  {
    match m
    case Literal(data, index) =>
      if index >= |data| || index == MatchState then Literal(data, MatchState)
      else if index == FailState then m
      else if data[index] == c then Literal(data, index + 1)
      else Literal(data, FailState)
    case Float(s) => Float(FloatNext(s, c))
    case Identifier(s) =>
      if IsLetter(c) || c == '_' then Identifier(1)
      else if s == 0 then Identifier(FailState)
      else if IsDigit(c) then Identifier(1)
      else Identifier(MatchState)
    case Integer(s) =>
      if IsDigit(c) then (if s == 0 then Integer(1) else Integer(s))
      else if s == 0 then Integer(FailState)
      else Integer(MatchState)
  }

  /** `min()`: the smallest character that may keep the matcher running. */
  function Min(m: Matcher): char
  {
    match m
    case Literal(data, index) => if index < 0 || index >= |data| then data[0] else data[index]
    case Float(s) => if s == 2 then '0' else FloatLow
    case Identifier(s) => if s == 0 then IdentStartLow else IdentLow
    case Integer(_) => '0'
  }

  /** `max()`: the largest character that may keep the matcher running. */
  function Max(m: Matcher): char
  {
    match m
    case Literal(_, _) => Min(m)
    case Float(s) => if s == 2 then '9' else FloatHigh
    case Identifier(s) => if s == 0 then IdentStartHigh else IdentHigh
    case Integer(_) => '9'
  }

  /** `can_fail()`: always for a literal, only in the initial state for the others. */
  predicate CanFail(m: Matcher) {
    match m
    case Literal(_, _) => true
    case Float(s) => s == 0
    case Identifier(s) => s == 0
    case Integer(s) => s == 0
  }

  /**
   * The facts range dispatch and the single final NUL step rely on: a character
   * that keeps a running matcher running lies within its bounds, NUL never keeps
   * any matcher running, and a character that stops a running matcher stops it
   * with the status NUL would give.
   */
  lemma DispatchBounds(m: Matcher, c: char)
    requires StatusOf(m) == Running
    ensures StatusOf(Step(m, c)) == Running ==> Min(m) <= c <= Max(m)
    ensures StatusOf(Step(m, c)) != Running ==> StatusOf(Step(m, c)) == StatusOf(Step(m, '\0'))
  {
    match m
    case Literal(data, index) =>
    case Float(s) =>
    case Identifier(s) =>
    case Integer(s) =>
  }

  /** The static bounds are the folds the source computes over the characters each matcher starts on. */
  lemma StaticBounds()
    ensures FloatLow == SeqMin(['0', '.']) && FloatHigh == SeqMax(['9', '.'])
    ensures IdentStartLow == SeqMin(['_', 'a', 'A']) && IdentStartHigh == SeqMax(['_', 'z', 'Z'])
    ensures IdentLow == SeqMin(['_', 'a', 'A', '0']) && IdentHigh == SeqMax(['_', 'z', 'Z', '9'])
  {
  }

  /** NUL never leaves a matcher running, whatever state it is in. */
  lemma NulStops(m: Matcher)
    ensures StatusOf(Step(m, '\0')) != Running
  {
  }

  /** Literal transitions: from index i < size only data[i] advances; at size every character matches. */
  lemma LiteralStep(m: Matcher, c: char)
    requires m.Literal? && StatusOf(m) == Running
    ensures 0 <= m.index < |m.data| && c == m.data[m.index] ==> Step(m, c) == Literal(m.data, m.index + 1) && StatusOf(Step(m, c)) == Running
    ensures 0 <= m.index < |m.data| && c != m.data[m.index] ==> StatusOf(Step(m, c)) == Failed
    ensures m.index == |m.data| ==> StatusOf(Step(m, c)) == Matched
  {
  }

  /** Literal and float matchers keep their terminal states. */
  lemma TerminalAbsorbing(m: Matcher, c: char)
    requires (m.Literal? || m.Float?) && StatusOf(m) != Running
    ensures Step(m, c) == m
  {
  }

  /** Identifier and integer matchers do not: stepping a terminal state may leave it. */
  lemma TerminalNotAbsorbing()
    ensures StatusOf(Step(Identifier(FailState), 'a')) == Running
    ensures StatusOf(Step(Identifier(MatchState), '7')) == Running
    ensures StatusOf(Step(Integer(FailState), 'x')) == Matched
  {
  }

  /** Identifier transitions (the identifier table). */
  lemma IdentifierStep(s: int, c: char)
    requires Wf(Identifier(s)) && StatusOf(Identifier(s)) == Running
    ensures s == 0 ==> (StatusOf(Step(Identifier(s), c)) == Running <==> IsLetter(c) || c == '_')
    ensures s == 0 ==> (StatusOf(Step(Identifier(s), c)) == Failed <==> !(IsLetter(c) || c == '_'))
    ensures s == 1 ==> (StatusOf(Step(Identifier(s), c)) == Running <==> IsLetter(c) || IsDigit(c) || c == '_')
    ensures s == 1 ==> (StatusOf(Step(Identifier(s), c)) == Matched <==> !(IsLetter(c) || IsDigit(c) || c == '_'))
  {
  }

  /** Integer transitions: digits run; a non-digit fails first, matches after a digit. */
  lemma IntegerStep(s: int, c: char)
    requires Wf(Integer(s)) && StatusOf(Integer(s)) == Running
    ensures StatusOf(Step(Integer(s), c)) == Running <==> IsDigit(c)
    ensures !IsDigit(c) ==> StatusOf(Step(Integer(s), c)) == (if s == 0 then Failed else Matched)
    ensures CanFail(Integer(s)) <==> s == 0
  {
  }

  /** The three-phase float table. */
  lemma FloatStep(s: int, c: char)
    requires Wf(Float(s)) && StatusOf(Float(s)) == Running
    ensures s == 0 ==> Code(Step(Float(s), c)) == (if IsDigit(c) then 1 else if c == '.' then 2 else FailState)
    ensures s == 1 ==> Code(Step(Float(s), c)) == (if IsDigit(c) then 1 else if c == '.' then 2 else MatchState)
    ensures s == 2 ==> Code(Step(Float(s), c)) == (if IsDigit(c) then 2 else MatchState)
  {
  }

  /**
   * What `can_fail` promises: a matcher whose flag is clear cannot fail on the next
   * character and stays clear while it runs; outside literals, a set flag means NUL
   * fails it.
   */
  lemma CanFailMeaning(m: Matcher, c: char)
    requires StatusOf(m) == Running
    ensures !CanFail(m) ==> StatusOf(Step(m, c)) != Failed
    ensures !CanFail(m) && StatusOf(Step(m, c)) == Running ==> !CanFail(Step(m, c))
    ensures StatusOf(Step(m, c)) == Failed ==> CanFail(m)
    ensures !m.Literal? && CanFail(m) ==> StatusOf(Step(m, '\0')) == Failed
  {
  }
}
