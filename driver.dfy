// The driver `match` / `match_impl` / `match_impl_tail` and the current
// actions `default_case` and `fallback` (include/strm/strm.hpp:333-360,
// 502-648).  The caller's iterator is a Cursor object that the driver moves
// in place; the compile-time recursion of `match_impl` through
// `match_impl_tail` over successive matcher lists is a pair of mutually
// recursive methods over list values.

module Driver {
  import opened Chars
  import opened Matchers
  import opened MatcherLists
  import opened Scanning

  /** The caller's stream iterator over a NUL-terminated text: `*src` reads, `++src` moves. */
  class Cursor {
    const text: Text
    var pos: nat

    ghost predicate Valid()
      reads this
    {
      pos < |text|
    }

    constructor (text: Text, pos: nat)
      requires pos < |text|
      ensures this.text == text && this.pos == pos && Valid()
    {
      this.text := text;
      this.pos := pos;
    }

    /** `*src`: the character under the cursor. */
    method Peek() returns (c: char)
      requires Valid()
      ensures c == text[pos]
    {
      c := text[pos];
    }

    /** `++src`: never past the terminating NUL. */
    method Advance()
      requires Valid() && text[pos] != '\0'
      modifies this
      ensures pos == old(pos) + 1 && Valid()
    {
      pos := pos + 1;
    }

    /** `dest = saved_iterator`. */
    method Reset(to: nat)
      requires to < |text|
      modifies this
      ensures pos == to && Valid()
    {
      pos := to;
    }
  }

  /** `case_`: a pattern (its matcher type) and the result bound to it. */
  datatype Case<R> = Case(matcher: Matcher, result: R)

  /** The current action: `default_case`, or a `fallback` holding a result and a saved position. */
  datatype Current<R> = DefaultCase(action: R) | Fallback(result: R, saved: nat)

  /** The value-initialised matcher of each case, in declaration order. */
  function Kinds<R>(cases: seq<Case<R>>): (kinds: seq<Matcher>)
    ensures |kinds| == |cases|
    ensures forall i :: 0 <= i < |cases| ==>
              SameKind(cases[i].matcher, kinds[i]) && Code(kinds[i]) == 0 && StatusOf(kinds[i]) == Running
  {
    seq(|cases|, i requires 0 <= i < |cases| => Fresh(cases[i].matcher))
  }

  /**
   * `current_action(src)`: the default case leaves the cursor where it is, a
   * fallback moves it back to its saved position; both yield their result.
   */
  method Invoke<R>(current: Current<R>, src: Cursor) returns (r: R)
    requires src.Valid() && (current.Fallback? ==> current.saved < |src.text|)
    modifies src
    ensures src.Valid()
    ensures current.DefaultCase? ==> r == current.action && src.pos == old(src.pos)
    ensures current.Fallback? ==> r == current.result && src.pos == current.saved
  {
    match current
    case DefaultCase(action) =>
      r := action;
    case Fallback(result, saved) =>
      src.Reset(saved);
      r := result;
  }

  /**
   * `match(src, default, cases...)`: scans from the cursor, moving it one
   * character per step that leaves some pattern running, and yields the
   * result of the pattern with the longest match (the earliest one among
   * equally long matches), or the default when no pattern matched.  The cursor
   * ends after the longest run of any pattern, matched or not: it is never moved
   * back.
   */
  method Match<R>(src: Cursor, default: R, cases: seq<Case<R>>) returns (r: R)
    requires src.Valid()
    requires |cases| > 0
    modifies src
    ensures src.Valid()
    ensures var es := Initial(Kinds(cases)).entries;
            var best := Best(es, src.text, old(src.pos));
            && src.pos == old(src.pos) + MaxLife(es, src.text, old(src.pos))
            && (best.NoPick? ==> r == default)
            && (best.Pick? ==> best.index < |cases| && r == cases[best.index].result)
  {
    var list := Initial(Kinds(cases));
    ghost var start := src.pos;
    r := MatchImpl(src, list, DefaultCase(default), cases);
    ScanIsIdeal(list, src.text, start);
    IdealIsBest(list, src.text, start);
    if Best(list.entries, src.text, start).Pick? {
      var k := BestWinner(list.entries, src.text, start);
    }
  }

  /**
   * `match_impl<List>`: dispatches the character under the cursor if it lies in
   * the list's [min, max] and some entry keeps running on it, moving the cursor
   * past it and going on with `match_impl_tail`.  Otherwise the list is stepped
   * on NUL and the recorded action's result is returned, or else the current
   * action is invoked.  The scan it performs is Scan, and whenever the scan ends
   * without an action the current action is the default case: a fallback is
   * never invoked.
   */
  method MatchImpl<R>(src: Cursor, list: MatcherList, current: Current<R>, cases: seq<Case<R>>)
    returns (r: R)
    requires src.Valid()
    requires Live(list, |cases|) && list.entries != []
    requires list.actionIndex == NoAction ==> current.DefaultCase?
    requires current.Fallback? ==> current.saved < |src.text|
    modifies src
    ensures src.Valid()
    ensures var s := Scan(list, src.text, old(src.pos));
            && src.pos == s.end
            && (s.actionIndex == NoAction ==> current.DefaultCase? && r == current.action)
            && (s.actionIndex != NoAction ==> 0 <= s.actionIndex < |cases| && r == cases[s.actionIndex].result)
    decreases |src.text| - src.pos, 0
  {
    var c := src.Peek();
    var lo, hi := Bounds(list);
    if lo <= c <= hi {
      var next := GetNext(list, c);
      if next.entries != [] {
        ghost var p := src.pos;
        src.Advance();
        LoopStep(list, next, src.text, p, src.pos, |cases|);
        r := MatchImplTail(src, next, list, current, cases);
        return;
      }
    }
    r := MatchImplEnd(src, list, current, cases);
  }

  /**
   * The end of `match_impl`, reached when the cursor cannot advance: the list
   * is stepped once on NUL; a recorded action index yields that case's result,
   * and otherwise the current action is invoked.
   */
  method MatchImplEnd<R>(src: Cursor, list: MatcherList, current: Current<R>, cases: seq<Case<R>>)
    returns (r: R)
    requires src.Valid()
    requires Live(list, |cases|) && list.entries != []
    requires !(ListMin(list) <= src.text[src.pos] <= ListMax(list) && GetNext(list, src.text[src.pos]).entries != [])
    requires list.actionIndex == NoAction ==> current.DefaultCase?
    requires current.Fallback? ==> current.saved < |src.text|
    modifies src
    ensures src.Valid()
    ensures var s := Scan(list, src.text, old(src.pos));
            && src.pos == s.end
            && (s.actionIndex == NoAction ==> current.DefaultCase? && r == current.action)
            && (s.actionIndex != NoAction ==> 0 <= s.actionIndex < |cases| && r == cases[s.actionIndex].result)
  {
    ScanStops(list, src.text, src.pos);
    var final := GetNext(list, '\0');
    if final.actionIndex != NoAction {
      GetNextLive(list, '\0', |cases|);
      r := cases[final.actionIndex].result;
    } else {
      if list.actionIndex != NoAction {
        ActionSticky(list, '\0');
      }
      r := Invoke(current, src);
    }
  }

  /** `List::min` and `List::max`: the folds of the entries' bounds. */
  method Bounds(list: MatcherList) returns (lo: char, hi: char)
    requires list.entries != []
    ensures lo == ListMin(list) && hi == ListMax(list)
  {
    lo := MinOf(Mins(list.entries));
    hi := MaxOf(Maxes(list.entries));
    SeqMinUnique(Mins(list.entries), lo);
    SeqMaxUnique(Maxes(list.entries), hi);
  }

  /**
   * `match_impl_tail<Next, Prev>`: a list whose action index differs from the
   * previous one and that can still fail installs a fallback holding that
   * action's result and the cursor's position; either way the scan goes on with
   * `match_impl<Next>`.
   */
  method MatchImplTail<R>(src: Cursor, next: MatcherList, prev: MatcherList, current: Current<R>, cases: seq<Case<R>>)
    returns (r: R)
    requires src.Valid()
    requires Live(next, |cases|) && next.entries != []
    requires prev.actionIndex != NoAction ==> next.actionIndex != NoAction
    requires prev.actionIndex == NoAction ==> current.DefaultCase?
    requires current.Fallback? ==> current.saved < |src.text|
    modifies src
    ensures src.Valid()
    ensures var s := Scan(next, src.text, old(src.pos));
            && src.pos == s.end
            && (s.actionIndex == NoAction ==> current.DefaultCase? && r == current.action)
            && (s.actionIndex != NoAction ==> 0 <= s.actionIndex < |cases| && r == cases[s.actionIndex].result)
    decreases |src.text| - src.pos, 1
  {
    if next.actionIndex != prev.actionIndex && ListCanFail(next) {
      var fallback := Fallback(cases[next.actionIndex].result, src.pos);
      r := MatchImpl(src, next, fallback, cases);
    } else {
      r := MatchImpl(src, next, current, cases);
    }
  }

  /** A dispatched character that leaves some entry running: the scan goes on one position further. */
  lemma ScanGoesOn(list: MatcherList, text: Text, pos: nat)
    requires pos < |text|
    requires AllRunning(list.entries) && list.entries != []
    requires ListMin(list) <= text[pos] <= ListMax(list) && GetNext(list, text[pos]).entries != []
    ensures text[pos] != '\0' && pos + 1 < |text|
    ensures Scan(list, text, pos) == Scan(GetNext(list, text[pos]), text, pos + 1)
  {
  }

  /**
   * One dispatch step: the list stepped on a dispatched character that
   * leaves some entry running is live again, keeps a recorded action index,
   * and continues the same scan one position further.
   */
  lemma LoopStep(list: MatcherList, next: MatcherList, text: Text, pos: nat, after: nat, n: nat)
    requires pos < |text| && Live(list, n) && list.entries != []
    requires ListMin(list) <= text[pos] <= ListMax(list)
    requires next == GetNext(list, text[pos]) && next.entries != [] && after == pos + 1
    ensures after < |text|
    ensures Live(next, n)
    ensures list.actionIndex != NoAction ==> next.actionIndex != NoAction
    ensures Scan(list, text, pos) == Scan(next, text, after)
  {
    ScanGoesOn(list, text, pos);
    GetNextLive(list, text[pos], n);
    if list.actionIndex != NoAction {
      ActionSticky(list, text[pos]);
    }
  }

  /** Otherwise the scan stops here, with the action index of the NUL step. */
  lemma ScanStops(list: MatcherList, text: Text, pos: nat)
    requires pos < |text|
    requires AllRunning(list.entries) && list.entries != []
    requires !(ListMin(list) <= text[pos] <= ListMax(list) && GetNext(list, text[pos]).entries != [])
    ensures Scan(list, text, pos) == ScanResult(GetNext(list, '\0').actionIndex, pos)
  {
  }
}
