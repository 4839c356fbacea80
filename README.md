# strm: a longest-match scanner, modelled in Dafny

`strm::match(src, default, cases...)` scans a NUL-terminated `char` stream
with a set of patterns. A pattern is any type that meets the `matcher`
concept; the library ships four: literals (`lit<"...">`), floats, C-like
identifiers and integers. The model covers those four. It returns the result bound to the pattern
with the longest match. Among equally long matches the earliest pattern wins.
When no pattern matches it returns the default. It moves the caller's
iterator forward as it reads.

The library builds the matcher lists and dispatch tables at compile time and
reads and moves the iterator at run time. Each matcher is a value-typed
state machine (`get_next`, `status`, `min`, `max`, `can_fail`). The active set
of matchers is a type list that `make_next_list` rewrites for every character
in the list's [min, max], and for NUL. The driver `match_impl` is instantiated once per reachable list,
and each instance dispatches the character under the cursor through a jump
table.

This project models the same computation on values:

- `chars.dfy` (module `Chars`): the character classes and the `consteval`
  `min`/`max` loops.
- `matchers.dfy` (module `Matchers`): the four built-in matchers, keeping the
  source's state encoding (-2 matched, -1 failed, anything else running) and
  its exact step tables.
- `languages.dfy` (module `Languages`): what each matcher recognises, stated
  as word shapes (viable prefixes and tokens) and proved against the step
  tables.
- `matcher_list.dfy` (module `MatcherLists`): the active set as a sequence of
  (pattern index, matcher) entries with an action index, and `make_next_list`
  as the clocked rotation the source performs, proved to be a stable filter.
- `scan.dfy` (module `Scanning`): what one call of `match` computes, as
  functions. It covers the scan as written (range dispatch, final NUL step),
  the same scan on the real character, and a reference stated pattern by
  pattern: each pattern consumes its longest viable prefix, and the longest
  token wins, ties going to the earliest pattern.
- `driver.dfy` (module `Driver`): `match`, `match_impl`, `match_impl_tail`,
  `default_case` and `fallback` as methods on a `Cursor` object that they move
  in place.
- `scenarios.dfy` (module `Scenarios`): the scenarios of `tests/test.cpp`,
  each as a reference lemma and a method running `Match`. Two more scenarios
  show the cursor behaviour described below.

The main results:

- `Driver.Match` returns the result of the winning pattern, or the default
  when none matched.
- Its cursor ends `MaxLife` characters further on, where `MaxLife` is the
  longest run of any pattern, matched or not. It is never moved back and never
  passes the terminating NUL.
- `Scanning.LongestThenPriority` states the winner as longest match, then
  priority.
- `Scanning.Munch` and `Scanning.LifeIsLongestViable` characterise each
  pattern's run as its maximal viable prefix.

Where a description of the library and its code differ, the model follows
the code:

- **The fallback rewind is unreachable.** The action index is seeded with
  the previous one, so once some pattern has matched it is never `-1` again.
  The final branch then returns `actions[idx]` directly, so a `fallback` is
  never invoked. `Driver.MatchImpl` proves this: whenever its result comes
  from the current action, that action is the default case.
- **The cursor is not rewound to the end of the winning token.** It stays
  after the longest run of any pattern (`Scenarios.OvershootTest`: `"abx"`
  against `"abc"`, `"a"` returns 1 with the cursor at 2, not 1).
- **`default_case` does not restore the cursor** either
  (`Scenarios.NoMatchTest`: the default is returned with the cursor at 2).
- **`can_fail` of a list is a conjunction** over its entries.
- The driver is written as the source's recursion, `match_impl` calling
  `match_impl_tail` calling `match_impl`. This becomes two mutually recursive
  methods over list values, which advance the cursor once per dispatched
  character.

## Model

| member | source | states |
|---|---|---|
| Chars.CharClasses | include/strm/strm.hpp:48-58 | `is_digit` (IsDigit, through IsBetween) holds exactly for the ten digits; no character is both a digit and a letter (IsLetter); '_', '.' and NUL are in neither class |
| Chars.SeqMin | include/strm/strm.hpp:31-37 | the folded minimum bounds every element from below |
| Chars.SeqMax | include/strm/strm.hpp:40-46 | the folded maximum bounds every element from above |
| Chars.SeqMinMaxIn | include/strm/strm.hpp:31-46 | both folds return an element of the list |
| Chars.SeqMinUnique | include/strm/strm.hpp:31-37 | an element that bounds the list from below is its minimum |
| Chars.SeqMaxUnique | include/strm/strm.hpp:40-46 | an element that bounds the list from above is its maximum |
| Chars.MinOf | include/strm/strm.hpp:30-37 | the `consteval min` loop returns an element of the array that is at most every element |
| Chars.MaxOf | include/strm/strm.hpp:39-46 | the `consteval max` loop returns an element of the array that is at least every element |
| Matchers.StatusCodes | include/strm/strm.hpp:94-122 | `status()` (StatusOf) on reachable states: running exactly on the non-negative codes, matched exactly on -2, failed exactly on -1 |
| Matchers.Fresh | include/strm/strm.hpp:480-481 | a value-initialised matcher is of the same type, in state 0, running, and can fail |
| Matchers.Step | include/strm/strm.hpp:80-212 | `get_next` of the literal, float, identifier and integer matchers keeps the matcher's type (for a literal, its string) |
| Matchers.DispatchBounds | include/strm/strm.hpp:102-217 | a character that keeps a running matcher running lies in [Min, Max], the matcher's `min()` and `max()`; one that stops it gives the status NUL gives |
| Matchers.StaticBounds | include/strm/strm.hpp:133-177 | the float and identifier bounds are the folds the source computes |
| Matchers.NulStops | include/strm/strm.hpp:593-598 | NUL leaves no matcher running, whatever its state |
| Matchers.LiteralStep | include/strm/strm.hpp:80-92 | from index i below size only data[i] advances to i+1, any other character fails; at size every character matches |
| Matchers.TerminalAbsorbing | include/strm/strm.hpp:82-152 | literal and float matchers keep their matched and failed states |
| Matchers.TerminalNotAbsorbing | include/strm/strm.hpp:185-211 | identifier and integer matchers leave their terminal states on some characters |
| Matchers.IdentifierStep | include/strm/strm.hpp:183-189 | from state 0 a letter or '_' runs and anything else fails; from state 1 letters, digits and '_' run and anything else matches |
| Matchers.IntegerStep | include/strm/strm.hpp:208-214 | a digit runs; a non-digit fails in state 0 and matches after a digit; can_fail holds exactly in state 0 |
| Matchers.FloatStep | include/strm/strm.hpp:141-154 | `next_state` (FloatNext) follows the three-phase float table |
| Matchers.CanFailMeaning | include/strm/strm.hpp:105-214 | a matcher whose `can_fail()` (CanFail) is clear cannot fail on the next character and stays clear; a failing step needs can_fail set |
| Languages.Run | include/strm/strm.hpp:80-92 | consuming a word keeps the matcher's type |
| Languages.RunSnoc | include/strm/strm.hpp:80-92 | consuming a word and one more character is one more step |
| Languages.DigitsMeaning | include/strm/strm.hpp:56-58 | the digit words are exactly the words whose every character is a digit |
| Languages.IdentWordMeaning | include/strm/strm.hpp:164-189 | identifier words are exactly a letter or '_' followed by letters, digits and '_' |
| Languages.FloatShapeMeaning | include/strm/strm.hpp:124-154 | float shapes are exactly the words of digits and at most one '.' |
| Languages.DigitsAreFloatShape | include/strm/strm.hpp:145-148 | a word of digits is a float shape |
| Languages.LiteralRun | include/strm/strm.hpp:88-89 | a literal that has consumed a prefix of its string sits at the prefix's length |
| Languages.IdentifierRun | include/strm/strm.hpp:183-189 | an identifier is in state 0 before its first character and 1 after it |
| Languages.IntegerRun | include/strm/strm.hpp:208-212 | an integer is in state 0 before its first digit and 1 after it |
| Languages.FloatRun | include/strm/strm.hpp:141-154 | a float is in phase 0 at the start, 1 on the digits before a '.', 2 after it |
| Languages.Language | include/strm/strm.hpp:80-100 | on a viable word a matcher runs; the next character keeps it running iff the longer word is viable, else it matches iff the word is a token |
| Languages.LiteralLanguage | include/strm/strm.hpp:80-100 | the language of a literal: its prefixes are viable, its string is the only token |
| Languages.FloatLanguage | include/strm/strm.hpp:141-154 | the language of the float matcher |
| Languages.IdentifierLanguage | include/strm/strm.hpp:183-189 | the language of the identifier matcher |
| Languages.IntegerLanguage | include/strm/strm.hpp:208-212 | the language of the integer matcher |
| Languages.ViablePrefix | include/strm/strm.hpp:80-92 | a viable word minus its last character is viable |
| Languages.ViablePrefixes | include/strm/strm.hpp:80-92 | every prefix of a viable word is viable |
| MatcherLists.Stepped | include/strm/strm.hpp:452 | every entry stepped on the character, indices and order kept |
| MatcherLists.RunningOf | include/strm/strm.hpp:395-401 | the kept entries are running entries of the list |
| MatcherLists.RunningOfKeepsRunning | include/strm/strm.hpp:395-401 | no running entry is dropped |
| MatcherLists.FirstMatchedMeaning | include/strm/strm.hpp:403-419 | the action index (FirstMatched) is the old one when nothing matched, else the index of the first matched entry |
| MatcherLists.MakeNextFilters | include/strm/strm.hpp:374-437 | the clocked rotation (MakeNext) yields the unvisited tail then the running visited entries in order, with the first match as action index |
| MatcherLists.NulStopsAll | include/strm/strm.hpp:593-598 | stepping every entry on NUL leaves none running |
| MatcherLists.NextEntries | include/strm/strm.hpp:430-437 | the next active set is running, and empty on NUL |
| MatcherLists.GetNext | include/strm/strm.hpp:451-452 | `get_next<C>` keeps exactly the running entries in order and records the first match or keeps the old index |
| MatcherLists.ListMin | include/strm/strm.hpp:447 | the list's `min` is at most every entry's `min()` and equals one of them |
| MatcherLists.ListMax | include/strm/strm.hpp:448 | the list's `max` is at least every entry's `max()` and equals one of them |
| MatcherLists.ListCanFailMeaning | include/strm/strm.hpp:449 | `can_fail` (ListCanFail) is a conjunction: when it is clear some entry does not fail on the next character, and when every entry fails on it the flag is set |
| MatcherLists.GetNextLive | include/strm/strm.hpp:441-452 | the transition keeps entries running, indices below the pattern count and the action index in range |
| MatcherLists.FirstMatchedAt | include/strm/strm.hpp:403-410 | a changed action index is the index of a matched entry with no match before it |
| MatcherLists.ActionSticky | include/strm/strm.hpp:430-452 | once recorded, the action index never returns to -1 |
| MatcherLists.NoneRunning | include/strm/strm.hpp:421-428 | with no running entry the next set is empty |
| MatcherLists.OutOfRangeStops | include/strm/strm.hpp:530 | a character outside the list's [min, max] leaves no entry running |
| MatcherLists.StopAgreesWithNul | include/strm/strm.hpp:593-598 | a character that leaves no entry running gives the same next list as NUL |
| MatcherLists.SameStatusSameFirst | include/strm/strm.hpp:403-419 | lists with the same statuses record the same action index |
| Scanning.Initial | include/strm/strm.hpp:474-489 | the first list holds every pattern value-initialised, tagged with its position, with no action |
| Scanning.Scan | include/strm/strm.hpp:513-611 | the scan as written stops on or before the NUL and consumes no NUL |
| Scanning.ScanLive | include/strm/strm.hpp:598-604 | the recorded action is none or a pattern index |
| Scanning.ScanIsIdeal | include/strm/strm.hpp:530-598 | for the four built-in matchers, range dispatch and the final NUL step give the same scan as stepping on the real character |
| Scanning.Life | include/strm/strm.hpp:522-525 | a running matcher stops before the NUL |
| Scanning.Outcome | include/strm/strm.hpp:593-598 | a running matcher stops matched or failed |
| Scanning.FirstPick | include/strm/strm.hpp:403-410 | the first matched entry as a pick of length 0, present iff some entry matched |
| Scanning.FirstPickAction | include/strm/strm.hpp:403-419 | the first pick's index is the action index the step records |
| Scanning.NextEntriesCons | include/strm/strm.hpp:395-428 | the next set splits into the head's contribution and the tail's |
| Scanning.PreferRunning | include/strm/strm.hpp:395-401 | a head entry that keeps running competes the same before and after the step |
| Scanning.PreferStopped | include/strm/strm.hpp:403-428 | a head entry that stops competes as a length-0 match |
| Scanning.StepBest | include/strm/strm.hpp:598-608 | the best pick is the next list's best one character longer, else the first match of this step |
| Scanning.StepMaxLife | include/strm/strm.hpp:522-525 | the longest life is one more than the next list's, or 0 |
| Scanning.IdealIsBest | include/strm/strm.hpp:513-611 | the scan records the best pick and stops after the longest life |
| Scanning.BestNone | include/strm/strm.hpp:600-611 | nothing is picked iff no pattern matches |
| Scanning.BestWinner | include/strm/strm.hpp:600-608 | the pick is a matched pattern, no pattern matches longer and every earlier one matches shorter |
| Scanning.MaxLifeIsMax | include/strm/strm.hpp:522-525 | the longest life bounds every entry's life and is reached by one |
| Scanning.NulNotViable | include/strm/strm.hpp:593-598 | no viable word ends in NUL |
| Scanning.LongestMeaning | include/strm/strm.hpp:522-525 | the longest viable extension is w plus the next characters, and the character after it does not extend it |
| Scanning.LongestFromStart | include/strm/strm.hpp:522-525 | from the empty word the longest extension is the maximal viable prefix at pos |
| Scanning.MunchLife | include/strm/strm.hpp:522-525 | a matcher runs on through exactly the longest viable extension |
| Scanning.MunchOutcome | include/strm/strm.hpp:593-598 | and stops matched iff that extension is a token |
| Scanning.Munch | include/strm/strm.hpp:513-611 | a pattern consumes its maximal viable prefix and matches iff it is a token |
| Scanning.LifeIsLongestViable | include/strm/strm.hpp:513-611 | a viable prefix that cannot be extended is the one consumed, and it decides the outcome |
| Scanning.ViableSlicePrefix | include/strm/strm.hpp:522-525 | a shorter slice of a viable slice is viable |
| Scanning.LiteralFound | include/strm/strm.hpp:80-92 | a literal whose string lies at pos consumes it and matches |
| Scanning.LiteralBreaks | include/strm/strm.hpp:88-91 | a literal whose string breaks off after k characters consumes k and fails |
| Scanning.DigitRun | include/strm/strm.hpp:208-212 | an integer consumes the run of digits and matches iff it is not empty |
| Scanning.IdentifierFound | include/strm/strm.hpp:183-189 | an identifier consumes the identifier word at pos and matches |
| Scanning.IdentifierRejected | include/strm/strm.hpp:185-186 | a character that cannot start an identifier fails it at once |
| Scanning.LongestThenPriority | include/strm/strm.hpp:598-611 | the recorded action is the longest match with ties to the earliest pattern, none iff nothing matches; the cursor stops after the longest run |
| Scanning.FirstCharRejected | include/strm/strm.hpp:600-611 | a first character every pattern rejects leaves no action and the cursor in place |
| Driver.Cursor.constructor | include/strm/strm.hpp:629-633 | a cursor over a NUL-terminated text at a position inside it |
| Driver.Cursor.Peek | include/strm/strm.hpp:632 | `*src` reads the character under the cursor |
| Driver.Cursor.Advance | include/strm/strm.hpp:524 | `++src` moves one character, never past the NUL |
| Driver.Cursor.Reset | include/strm/strm.hpp:337 | `dest = saved_iterator` sets the position |
| Driver.Kinds | include/strm/strm.hpp:642 | one matcher per case, in order, each of its case's type (for a literal, the same string) in state 0 and running |
| Driver.Invoke | include/strm/strm.hpp:333-360 | the default case returns its action and leaves the cursor; a fallback returns its result and rewinds |
| Driver.Match | include/strm/strm.hpp:635-648 | returns the winner's result or the default, and moves the cursor by the longest run |
| Driver.MatchImpl | include/strm/strm.hpp:513-611 | performs the scan; a result from the current action comes from the default case |
| Driver.MatchImplEnd | include/strm/strm.hpp:593-611 | the NUL step returns the recorded action's result, or invokes the current action |
| Driver.Bounds | include/strm/strm.hpp:516-517 | the list's min and max |
| Driver.MatchImplTail | include/strm/strm.hpp:502-511 | whichever current action it passes on (a fallback under the source's condition, else the one it was given), the cursor ends where the scan of the next list ends, and the result is the recorded case's result, or the given current action's when no action is recorded, which is then the default case |
| Driver.ScanGoesOn | include/strm/strm.hpp:522-525 | a dispatched character that keeps some entry running is not the NUL, and the scan continues after it |
| Driver.LoopStep | include/strm/strm.hpp:519-526 | one dispatch step keeps the list live, keeps a recorded action and continues the same scan |
| Driver.ScanStops | include/strm/strm.hpp:593-600 | otherwise the scan stops with the action index of the NUL step |
| Scenarios.HelloBest | tests/test.cpp:114-131 | "hello123": pattern 0 wins with 5 characters |
| Scenarios.HelloTest | tests/test.cpp:114-131 | returns 0 with the cursor on '1' |
| Scenarios.EqualsBest | tests/test.cpp:133-146 | "= ": "==" fails, "=" wins with 1 character |
| Scenarios.EqualsTest | tests/test.cpp:133-146 | returns 1 with the cursor on ' ' |
| Scenarios.NumberBest | tests/test.cpp:148-163 | "123": the integer wins with 3 characters |
| Scenarios.NumberTest | tests/test.cpp:148-163 | returns 1 with the cursor on the NUL |
| Scenarios.PriorityBest | tests/test.cpp:165-181 | "123xx": "123" and the integer tie at 3, the earlier wins |
| Scenarios.PriorityTest | tests/test.cpp:165-181 | returns 1 |
| Scenarios.ResumeBest | tests/test.cpp:183-196 | "hello123" from '1': the integer wins with 3 characters |
| Scenarios.ResumeTest | tests/test.cpp:183-196 | returns 1 with the cursor on the NUL |
| Scenarios.BracesBest | tests/test.cpp:199-211 | "{} struct 500": "{" wins with 1 character |
| Scenarios.BracesTest | tests/test.cpp:199-211 | returns 0 with the cursor on '}' |
| Scenarios.WussupBest | tests/test.cpp:213-229 | "wussup54++{}": the identifier wins with 8 characters |
| Scenarios.WussupTest | tests/test.cpp:213-229 | returns 1 with the cursor on '+' |
| Scenarios.OvershootBest | include/strm/strm.hpp:502-511 | "abx" against "abc", "a": "a" wins, but "abc" ran for 2 characters |
| Scenarios.OvershootTest | include/strm/strm.hpp:502-611 | returns 1 with the cursor after 2 characters: no rewind |
| Scenarios.NoMatchBest | include/strm/strm.hpp:351-360 | "abx" against "abc": nothing matches, "abc" ran for 2 characters |
| Scenarios.NoMatchTest | include/strm/strm.hpp:600-611 | returns the default with the cursor after 2 characters |

## Left out

- User-defined matchers are left out. `match` accepts any type that meets the
  `matcher` concept (`get_next`, `min`, `max`, `status`, `can_fail`), but the
  model's `Matcher` is closed over the four built-ins. For another matcher,
  the range dispatch and the single final NUL step give the scan on the real
  character only if its `min()` and `max()` bound every character that keeps
  it running and NUL stops it. The library assumes this without checking it.
  `Matchers.DispatchBounds` and `Matchers.NulStops` prove it for the four
  built-ins only, so `Scanning.ScanIsIdeal` holds only for them.
- The jump tables (`REP*` macros and switch ladders) are left out: they only
  make dispatch fast. The model dispatches by the same test, "the character
  lies in the list's [min, max]".
- The `type_<NextList>()` debug printing to `std::cout` is I/O.
- The type plumbing (`find_type_i`, `cond`, the custom `tuple`, `w_index`,
  `case_`, `operator>>`, `fn_wrap`) is left out. Cases are a sequence of
  (matcher, result) values and actions are their results.
- Callable actions and their side effects are left out. A result is a plain
  value, and calling it is not modelled.
- Signed and non-ASCII characters and the 0..254 limit of `REP255(0)` are
  left out. Literals are non-empty ASCII strings without an embedded NUL.
  The text is any character sequence ending in NUL.
- The lexers of `tests/lexer.cpp` and `examples/lexer.cpp` are not part of
  this model: their keyword table `lex.def` is not available.
- The unused `hash` helper of `tests/test.cpp` is left out.
- Dereferencing the iterator at the end is left out. The scenario methods
  return the final cursor position, and their contracts state the character
  there.
- A single driver loop is not how the driver is modelled. It keeps the
  source's recursion, two mutually recursive methods mirroring `match_impl`
  and `match_impl_tail`, so each call of the source is one call of the model.
