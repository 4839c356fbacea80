// The active set and its one-character transition: `matcher_list` and
// `make_next_list` (include/strm/strm.hpp:370-463).  The source walks the
// stepped entries with a clock, rotating every running entry to the back of
// the pack and dropping the others; the first matched entry of the step
// replaces the recorded action index.

module MatcherLists {
  import opened Chars
  import opened Matchers

  /** `w_index<M, Idx>`: a matcher state tagged with the position of its pattern. */
  datatype Entry = Entry(index: nat, m: Matcher)

  /** The action index of a list before any pattern has matched. */
  const NoAction: int := -1

  /** `matcher_list<ActionIdx, Cases...>`; with no entries it is the `failed` list. */
  datatype MatcherList = MatcherList(actionIndex: int, entries: seq<Entry>)

  predicate AllRunning(es: seq<Entry>) {
    forall i :: 0 <= i < |es| ==> StatusOf(es[i].m) == Running
  }

  /** The list a scan works on: running entries, indices and action below n. */
  predicate Live(L: MatcherList, n: nat) {
    && AllRunning(L.entries)
    && (forall i :: 0 <= i < |L.entries| ==> L.entries[i].index < n)
    && (L.actionIndex == NoAction || 0 <= L.actionIndex < n)
  }

  /** `Cases::template get_next<C>...`: every entry stepped on c, in order. */
  function Stepped(es: seq<Entry>, c: char): (r: seq<Entry>)
    ensures |r| == |es|
    ensures forall i :: 0 <= i < |es| ==> r[i] == Entry(es[i].index, Step(es[i].m, c))
  {
    if es == [] then [] else [Entry(es[0].index, Step(es[0].m, c))] + Stepped(es[1..], c)
  }

  /** The running entries of es, in their original order. */
  function RunningOf(es: seq<Entry>): (r: seq<Entry>)
    ensures |r| <= |es|
    ensures forall e :: e in r ==> e in es && StatusOf(e.m) == Running
  {
    if es == [] then []
    else (if StatusOf(es[0].m) == Running then [es[0]] else []) + RunningOf(es[1..])
  }

  /** RunningOf drops no running entry. */
  lemma {:induction false} RunningOfKeepsRunning(es: seq<Entry>)
    ensures forall e :: e in es && StatusOf(e.m) == Running ==> e in RunningOf(es)
    decreases |es|
  {
    if es != [] {
      RunningOfKeepsRunning(es[1..]);
      assert forall e :: e in es ==> e == es[0] || e in es[1..];
    }
  }

  /** The index of the first matched entry, or `otherwise` when none matched. */
  function FirstMatched(es: seq<Entry>, otherwise: int): int {
    if es == [] then otherwise
    else if StatusOf(es[0].m) == Matched then es[0].index
    else FirstMatched(es[1..], otherwise)
  }

  /** FirstMatched is `otherwise` when no entry matched, else the index of the first matched entry. */
  lemma {:induction false} FirstMatchedMeaning(es: seq<Entry>, otherwise: int)
    ensures (forall i :: 0 <= i < |es| ==> StatusOf(es[i].m) != Matched) ==> FirstMatched(es, otherwise) == otherwise
    ensures forall k :: 0 <= k < |es| && StatusOf(es[k].m) == Matched
                        && (forall j :: 0 <= j < k ==> StatusOf(es[j].m) != Matched)
                        ==> FirstMatched(es, otherwise) == es[k].index
    decreases |es|
  {
    if es != [] {
      FirstMatchedMeaning(es[1..], otherwise);
      assert forall i :: 1 <= i < |es| ==> es[i] == es[1..][i - 1];
    }
  }

  /**
   * `make_next_list`: clk entries at the front of pack remain to be looked at.
   * A running one is rotated to the back, a matched one is dropped and, if it is
   * the first match of the step (look), its index becomes the action index, a
   * failed one is dropped.  At clk == 0 the pack is the new list.
   */
  function MakeNext(clk: nat, data: int, look: bool, pack: seq<Entry>): (int, seq<Entry>)
    requires clk <= |pack|
    decreases clk
  {
    if clk == 0 then (data, pack)
    else
      var head := pack[0];
      match StatusOf(head.m)
      case Running => MakeNext(clk - 1, data, look, pack[1..] + [head])
      case Matched =>
        if look then MakeNext(clk - 1, head.index, false, pack[1..])
        else MakeNext(clk - 1, data, false, pack[1..])
      case Failed => MakeNext(clk - 1, data, look, pack[1..])
  }

  /**
   * The rotation is a stable filter: after clk steps the unvisited tail is
   * followed by the running entries of the visited front, in order, and the
   * action index is the first match among them (when still looking).
   */
  lemma {:induction false} MakeNextFilters(clk: nat, data: int, look: bool, pack: seq<Entry>)
    requires clk <= |pack|
    ensures MakeNext(clk, data, look, pack)
         == (if look then FirstMatched(pack[..clk], data) else data, pack[clk..] + RunningOf(pack[..clk]))
    decreases clk
  {
    if clk > 0 {
      var head := pack[0];
      var front := pack[..clk];
      assert front[0] == head && front[1..] == pack[1..clk];
      match StatusOf(head.m)
      case Running =>
        var p := pack[1..] + [head];
        MakeNextFilters(clk - 1, data, look, p);
        assert p[..clk - 1] == pack[1..clk];
        assert p[clk - 1..] == pack[clk..] + [head];
        assert RunningOf(front) == [head] + RunningOf(pack[1..clk]);
        assert (pack[clk..] + [head]) + RunningOf(pack[1..clk]) == pack[clk..] + RunningOf(front);
        assert FirstMatched(front, data) == FirstMatched(pack[1..clk], data);
      case Matched =>
        MakeNextFilters(clk - 1, if look then head.index else data, false, pack[1..]);
        assert pack[1..][..clk - 1] == pack[1..clk];
        assert pack[1..][clk - 1..] == pack[clk..];
        assert RunningOf(front) == RunningOf(pack[1..clk]);
        assert FirstMatched(front, data) == head.index;
      case Failed =>
        MakeNextFilters(clk - 1, data, look, pack[1..]);
        assert pack[1..][..clk - 1] == pack[1..clk];
        assert pack[1..][clk - 1..] == pack[clk..];
        assert RunningOf(front) == RunningOf(pack[1..clk]);
        assert FirstMatched(front, data) == FirstMatched(pack[1..clk], data);
    } else {
      assert pack[..0] == [] && pack[0..] == pack;
      assert FirstMatched([], data) == data && RunningOf([]) == [];
      assert pack + [] == pack;
    }
  }

  lemma {:induction false} NulStopsAll(es: seq<Entry>)
    ensures RunningOf(Stepped(es, '\0')) == []
    decreases |es|
  {
    if es != [] {
      NulStops(es[0].m);
      NulStopsAll(es[1..]);
      assert Stepped(es, '\0')[1..] == Stepped(es[1..], '\0');
    }
  }

  /** The next active set: the entries still running after c. */
  function NextEntries(es: seq<Entry>, c: char): (r: seq<Entry>)
    ensures AllRunning(r)
    ensures r != [] ==> c != '\0'
  {
    if c == '\0' then NulStopsAll(es); [] else RunningOf(Stepped(es, c))
  }

  /**
   * `matcher_list::get_next<C>`: the new list holds exactly the running entries, in
   * their original order, and its action index is that of the first entry matched
   * by c, or the old one when none matched.
   */
  function GetNext(L: MatcherList, c: char): (r: MatcherList)
    ensures r.entries == NextEntries(L.entries, c)
    ensures r.actionIndex == FirstMatched(Stepped(L.entries, c), L.actionIndex)
  {
    var stepped := Stepped(L.entries, c);
    MakeNextFilters(|stepped|, L.actionIndex, true, stepped);
    assert stepped[..|stepped|] == stepped && stepped[|stepped|..] == [];
    NulStopsAll(L.entries);
    var (a, es) := MakeNext(|stepped|, L.actionIndex, true, stepped);
    MatcherList(a, es)
  }

  /** The entries' lower bounds, in order. */
  function Mins(es: seq<Entry>): (r: seq<char>)
    ensures |r| == |es| && forall i :: 0 <= i < |es| ==> r[i] == Min(es[i].m)
  {
    seq(|es|, i requires 0 <= i < |es| => Min(es[i].m))
  }

  /** The entries' upper bounds, in order. */
  function Maxes(es: seq<Entry>): (r: seq<char>)
    ensures |r| == |es| && forall i :: 0 <= i < |es| ==> r[i] == Max(es[i].m)
  {
    seq(|es|, i requires 0 <= i < |es| => Max(es[i].m))
  }

  /** `matcher_list::min`: the least lower bound of any entry, attained by one of them. */
  function ListMin(L: MatcherList): (lo: char)
    requires L.entries != []
    ensures forall i :: 0 <= i < |L.entries| ==> lo <= Min(L.entries[i].m)
    ensures exists i :: 0 <= i < |L.entries| && lo == Min(L.entries[i].m)
  {
    SeqMinMaxIn(Mins(L.entries));
    SeqMin(Mins(L.entries))
  }

  /** `matcher_list::max`: the greatest upper bound of any entry, attained by one of them. */
  function ListMax(L: MatcherList): (hi: char)
    requires L.entries != []
    ensures forall i :: 0 <= i < |L.entries| ==> Max(L.entries[i].m) <= hi
    ensures exists i :: 0 <= i < |L.entries| && hi == Max(L.entries[i].m)
  {
    SeqMinMaxIn(Maxes(L.entries));
    SeqMax(Maxes(L.entries))
  }

  /** `matcher_list::can_fail`: every entry can still fail (a conjunction, not "any"). */
  predicate ListCanFail(L: MatcherList) {
    forall i :: 0 <= i < |L.entries| ==> CanFail(L.entries[i].m)
  }

  /**
   * The list's flag is a conjunction: it is clear as soon as one entry cannot
   * fail, and then that entry does not fail on the next character.
   */
  lemma ListCanFailMeaning(L: MatcherList, c: char)
    requires AllRunning(L.entries)
    ensures !ListCanFail(L) ==> exists i :: 0 <= i < |L.entries| && StatusOf(Step(L.entries[i].m, c)) != Failed
    ensures (forall i :: 0 <= i < |L.entries| ==> StatusOf(Step(L.entries[i].m, c)) == Failed) ==> ListCanFail(L)
  {
    if !ListCanFail(L) {
      var i :| 0 <= i < |L.entries| && !CanFail(L.entries[i].m);
      CanFailMeaning(L.entries[i].m, c);
    }
  }

  /** The transition keeps a live list live. */
  lemma GetNextLive(L: MatcherList, c: char, n: nat)
    requires Live(L, n)
    ensures Live(GetNext(L, c), n)
  {
    var st := Stepped(L.entries, c);
    var r := GetNext(L, c);
    forall i | 0 <= i < |r.entries| ensures r.entries[i].index < n {
      assert r.entries[i] in st;
    }
    if r.actionIndex != L.actionIndex {
      var k := FirstMatchedAt(st, L.actionIndex);
    }
  }

  /** When the first match changes the action index, it is the index of the first matched entry. */
  lemma {:induction false} FirstMatchedAt(es: seq<Entry>, otherwise: int) returns (k: nat)
    requires FirstMatched(es, otherwise) != otherwise
    ensures k < |es| && StatusOf(es[k].m) == Matched && FirstMatched(es, otherwise) == es[k].index
    ensures forall j :: 0 <= j < k ==> StatusOf(es[j].m) != Matched
    decreases |es|
  {
    if StatusOf(es[0].m) == Matched {
      k := 0;
    } else {
      var k' := FirstMatchedAt(es[1..], otherwise);
      k := k' + 1;
      forall j | 0 <= j < k ensures StatusOf(es[j].m) != Matched {
        if j > 0 { assert es[j] == es[1..][j - 1]; }
      }
    }
  }

  /** Once an action index is recorded it is never dropped: the index is sticky. */
  lemma ActionSticky(L: MatcherList, c: char)
    requires L.actionIndex != NoAction
    ensures GetNext(L, c).actionIndex != NoAction
  {
    var st := Stepped(L.entries, c);
    if GetNext(L, c).actionIndex != L.actionIndex {
      var k := FirstMatchedAt(st, L.actionIndex);
    }
  }

  lemma {:induction false} NoneRunning(es: seq<Entry>)
    requires forall i :: 0 <= i < |es| ==> StatusOf(es[i].m) != Running
    ensures RunningOf(es) == []
    decreases |es|
  {
    if es != [] {
      NoneRunning(es[1..]);
    }
  }

  /** A character outside [ListMin, ListMax] keeps no entry running. */
  lemma OutOfRangeStops(L: MatcherList, c: char)
    requires AllRunning(L.entries) && L.entries != []
    requires !(ListMin(L) <= c <= ListMax(L))
    ensures GetNext(L, c).entries == []
  {
    var es := L.entries;
    var st := Stepped(es, c);
    forall k | 0 <= k < |st| ensures StatusOf(st[k].m) != Running {
      DispatchBounds(es[k].m, c);
      assert Mins(es)[k] == Min(es[k].m) && Maxes(es)[k] == Max(es[k].m);
    }
    NoneRunning(st);
  }

  /**
   * A character on which no entry keeps running gives the same list as NUL: the
   * final NUL step of the driver decides what the real character would have.
   */
  lemma StopAgreesWithNul(L: MatcherList, c: char)
    requires AllRunning(L.entries)
    requires GetNext(L, c).entries == []
    ensures GetNext(L, c) == GetNext(L, '\0')
  {
    var es := L.entries;
    var sc := Stepped(es, c);
    var sn := Stepped(es, '\0');
    RunningOfKeepsRunning(sc);
    forall i | 0 <= i < |es| ensures StatusOf(sc[i].m) == StatusOf(sn[i].m) {
      DispatchBounds(es[i].m, c);
      assert sc[i] in sc;
    }
    SameStatusSameFirst(sc, sn, L.actionIndex);
  }

  lemma {:induction false} SameStatusSameFirst(a: seq<Entry>, b: seq<Entry>, otherwise: int)
    requires |a| == |b|
    requires forall i :: 0 <= i < |a| ==> a[i].index == b[i].index && StatusOf(a[i].m) == StatusOf(b[i].m)
    ensures FirstMatched(a, otherwise) == FirstMatched(b, otherwise)
    decreases |a|
  {
    if a != [] {
      SameStatusSameFirst(a[1..], b[1..], otherwise);
    }
  }
}
