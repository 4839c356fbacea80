// What one call of `match` computes, as functions: the recursion of
// `match_impl` with its range dispatch and final NUL step
// (include/strm/strm.hpp:513-611), the same scan stepping on the real
// character, and a reference stated pattern by pattern: how long each
// pattern keeps running, whether it ends matched, and which one wins.

module Scanning {
  import opened Chars
  import opened Matchers
  import opened Languages
  import opened MatcherLists

  /** A NUL-terminated character stream. */
  predicate Terminated(text: seq<char>) {
    |text| > 0 && text[|text| - 1] == '\0'
  }

  /** The text a scan reads: it always ends in the NUL that stops every matcher. */
  type Text = t: seq<char> | Terminated(t) witness "\0"

  /** The recorded action index when the scan stops, and the cursor position then. */
  datatype ScanResult = ScanResult(actionIndex: int, end: nat)

  /** The initial list of `match`: every pattern value-initialised, tagged with its position, no action. */
  function Initial(kinds: seq<Matcher>): (L: MatcherList)
    ensures L.actionIndex == NoAction && |L.entries| == |kinds|
    ensures forall i :: 0 <= i < |kinds| ==> L.entries[i] == Entry(i, Fresh(kinds[i]))
    ensures Live(L, |kinds|)
  {
    MatcherList(NoAction, seq(|kinds|, i requires 0 <= i < |kinds| => Entry(i, Fresh(kinds[i]))))
  }

  /**
   * `match_impl` as written: a character inside the list's [min, max] is stepped,
   * and the scan goes on one position further if some entry still runs;
   * otherwise the list is stepped on NUL and its action index is the outcome.
   * The scan never stops beyond the terminating NUL and never consumes a NUL.
   */
  function Scan(L: MatcherList, text: Text, pos: nat): (r: ScanResult)
    requires pos < |text|
    requires AllRunning(L.entries) && L.entries != []
    ensures pos <= r.end < |text|
    ensures forall k :: pos <= k < r.end ==> text[k] != '\0'
    decreases |text| - pos
  {
    var c := text[pos];
    var next := GetNext(L, c);
    if ListMin(L) <= c <= ListMax(L) && next.entries != [] then
      assert c != '\0' && AllRunning(next.entries);
      Scan(next, text, pos + 1)
    else
      ScanResult(GetNext(L, '\0').actionIndex, pos)
  }

  /** The recorded action is none or the index of one of the patterns. */
  lemma {:induction false} ScanLive(L: MatcherList, text: Text, pos: nat, n: nat)
    requires pos < |text| && Live(L, n) && L.entries != []
    ensures var a := Scan(L, text, pos).actionIndex; a == NoAction || 0 <= a < n
    decreases |text| - pos
  {
    var c := text[pos];
    var next := GetNext(L, c);
    if ListMin(L) <= c <= ListMax(L) && next.entries != [] {
      GetNextLive(L, c, n);
      ScanLive(next, text, pos + 1, n);
    } else {
      GetNextLive(L, '\0', n);
    }
  }

  /** The same scan with neither range dispatch nor the NUL substitute: every step uses the real character. */
  function IdealScan(L: MatcherList, text: Text, pos: nat): ScanResult
    requires pos < |text|
    decreases |text| - pos
  {
    var c := text[pos];
    var next := GetNext(L, c);
    if next.entries != [] then
      assert c != '\0';
      IdealScan(next, text, pos + 1)
    else ScanResult(next.actionIndex, pos)
  }

  /** Range dispatch and the final NUL step change nothing: the scan as written is the ideal scan. */
  lemma {:induction false} ScanIsIdeal(L: MatcherList, text: Text, pos: nat)
    requires pos < |text|
    requires AllRunning(L.entries) && L.entries != []
    ensures Scan(L, text, pos) == IdealScan(L, text, pos)
    decreases |text| - pos
  {
    var c := text[pos];
    var next := GetNext(L, c);
    if ListMin(L) <= c <= ListMax(L) && next.entries != [] {
      ScanIsIdeal(next, text, pos + 1);
    } else {
      if !(ListMin(L) <= c <= ListMax(L)) {
        OutOfRangeStops(L, c);
      }
      StopAgreesWithNul(L, c);
    }
  }

  // ---------------------------------------------------------------------
  // Reference semantics, pattern by pattern

  /** How many characters a running matcher consumes from pos before it stops. */
  function Life(m: Matcher, text: Text, pos: nat): (k: nat)
    requires StatusOf(m) == Running && pos < |text|
    ensures pos + k < |text|
    decreases |text| - pos
  {
    var n := Step(m, text[pos]);
    NulStops(m);
    if StatusOf(n) == Running then 1 + Life(n, text, pos + 1) else 0
  }

  /** The status a running matcher stops with. */
  function Outcome(m: Matcher, text: Text, pos: nat): (s: Status)
    requires StatusOf(m) == Running && pos < |text|
    ensures s != Running
    decreases |text| - pos
  {
    var n := Step(m, text[pos]);
    NulStops(m);
    if StatusOf(n) == Running then Outcome(n, text, pos + 1) else StatusOf(n)
  }

  /** A candidate: the pattern index and the length of its token. */
  datatype Pick = NoPick | Pick(index: nat, length: nat)

  /** Entry (index, life) against the best of the entries after it: a match at least as long wins. */
  function Prefer(outcome: Status, index: nat, life: nat, rest: Pick): Pick {
    if outcome == Matched && (rest.NoPick? || life >= rest.length) then Pick(index, life) else rest
  }

  /** Longest token first, and among equal lengths the earliest entry. */
  function Best(es: seq<Entry>, text: Text, pos: nat): Pick
    requires AllRunning(es) && pos < |text|
    decreases |es|
  {
    if es == [] then NoPick
    else Prefer(Outcome(es[0].m, text, pos), es[0].index, Life(es[0].m, text, pos), Best(es[1..], text, pos))
  }

  /** The action index the reference chooses: the best pick, else the one already recorded. */
  function BestAction(es: seq<Entry>, text: Text, pos: nat, recorded: int): int
    requires AllRunning(es) && pos < |text|
  {
    match Best(es, text, pos)
    case Pick(i, _) => i
    case NoPick => recorded
  }

  /** The longest any entry keeps running. */
  function MaxLife(es: seq<Entry>, text: Text, pos: nat): nat
    requires AllRunning(es) && pos < |text|
    decreases |es|
  {
    if es == [] then 0
    else
      var l := Life(es[0].m, text, pos);
      var r := MaxLife(es[1..], text, pos);
      if l >= r then l else r
  }

  /** The first entry that reports matched, as a pick of length 0. */
  function FirstPick(es: seq<Entry>): (r: Pick)
    ensures r.Pick? ==> r.length == 0
    ensures r.Pick? <==> exists k :: 0 <= k < |es| && StatusOf(es[k].m) == Matched
  {
    if es == [] then NoPick
    else if StatusOf(es[0].m) == Matched then Pick(es[0].index, 0)
    else
      assert forall k :: 1 <= k < |es| ==> es[k] == es[1..][k - 1];
      FirstPick(es[1..])
  }

  lemma {:induction false} FirstPickAction(es: seq<Entry>, recorded: int)
    ensures FirstMatched(es, recorded) == (if FirstPick(es).Pick? then FirstPick(es).index else recorded)
    decreases |es|
  {
    if es != [] {
      FirstPickAction(es[1..], recorded);
    }
  }

  /** The next active set, split into the head's contribution and the tail's. */
  lemma NextEntriesCons(es: seq<Entry>, c: char)
    requires es != []
    ensures var e := Entry(es[0].index, Step(es[0].m, c));
            NextEntries(es, c)
            == (if StatusOf(e.m) == Running then [e] else []) + NextEntries(es[1..], c)
    ensures Stepped(es, c) == [Entry(es[0].index, Step(es[0].m, c))] + Stepped(es[1..], c)
  {
    NulStops(es[0].m);
  }

  /** The reference's step rule, given the best pick after this character and the first match on it. */
  function Extend(after: Pick, firstHere: Pick): Pick {
    if after.Pick? then Pick(after.index, after.length + 1) else firstHere
  }

  /** A head entry that keeps running: preferring it before or after the step agrees. */
  lemma PreferRunning(o: Status, i: nat, l: nat, after: Pick, firstHere: Pick)
    requires firstHere.Pick? ==> firstHere.length == 0
    ensures Prefer(o, i, l + 1, Extend(after, firstHere)) == Extend(Prefer(o, i, l, after), firstHere)
  {
  }

  /** A head entry that stops on this character: it competes as a length-0 pick. */
  lemma PreferStopped(o: Status, i: nat, after: Pick, firstHere: Pick)
    requires firstHere.Pick? ==> firstHere.length == 0
    ensures Prefer(o, i, 0, Extend(after, firstHere))
         == Extend(after, if o == Matched then Pick(i, 0) else firstHere)
  {
  }

  /** Best over the entries still running after a character; none left, no pick. */
  function BestAfter(es: seq<Entry>, text: Text, pos: nat): Pick
    requires AllRunning(es) && pos < |text|
  {
    var n := NextEntries(es, text[pos]);
    if n != [] then Best(n, text, pos + 1) else NoPick
  }

  /**
   * One step of the reference: the best pick of the list is the best pick of the
   * next list, one character longer, or else the first entry matched by this
   * character.
   */
  lemma {:induction false} StepBest(es: seq<Entry>, text: Text, pos: nat)
    requires AllRunning(es) && pos < |text|
    ensures Best(es, text, pos) == Extend(BestAfter(es, text, pos), FirstPick(Stepped(es, text[pos])))
    decreases |es|
  {
    var c := text[pos];
    if es != [] {
      var e := es[0];
      var e' := Entry(e.index, Step(e.m, c));
      var rest := es[1..];
      NextEntriesCons(es, c);
      StepBest(rest, text, pos);
      var n := NextEntries(es, c);
      var nr := NextEntries(rest, c);
      var F := FirstPick(Stepped(rest, c));
      var after := BestAfter(rest, text, pos);
      assert Stepped(es, c)[0] == e' && Stepped(es, c)[1..] == Stepped(rest, c);
      NulStops(e.m);
      if StatusOf(e'.m) == Running {
        assert c != '\0' && pos + 1 < |text|;
        var o, l := Outcome(e'.m, text, pos + 1), Life(e'.m, text, pos + 1);
        assert n[0] == e' && n[1..] == nr;
        assert nr == [] ==> Best(nr, text, pos + 1) == NoPick;
        assert Best(n, text, pos + 1) == Prefer(o, e.index, l, after);
        assert FirstPick(Stepped(es, c)) == F;
        PreferRunning(o, e.index, l, after, F);
      } else {
        assert n == nr;
        assert FirstPick(Stepped(es, c)) == if StatusOf(e'.m) == Matched then Pick(e.index, 0) else F;
        PreferStopped(StatusOf(e'.m), e.index, after, F);
      }
    }
  }

  /** One step of the reference: the longest life is one more than the next list's, or 0. */
  lemma {:induction false} StepMaxLife(es: seq<Entry>, text: Text, pos: nat)
    requires AllRunning(es) && pos < |text|
    ensures var n := NextEntries(es, text[pos]);
            MaxLife(es, text, pos) == if n != [] then 1 + MaxLife(n, text, pos + 1) else 0
    decreases |es|
  {
    var c := text[pos];
    if es != [] {
      var e := es[0];
      var e' := Entry(e.index, Step(e.m, c));
      var rest := es[1..];
      NextEntriesCons(es, c);
      StepMaxLife(rest, text, pos);
      var n := NextEntries(es, c);
      NulStops(e.m);
      if StatusOf(e'.m) == Running {
        assert n[0] == e' && n[1..] == NextEntries(rest, c);
        assert Life(e.m, text, pos) == 1 + Life(e'.m, text, pos + 1);
        assert MaxLife(n, text, pos + 1)
            == if Life(e'.m, text, pos + 1) >= MaxLife(n[1..], text, pos + 1)
               then Life(e'.m, text, pos + 1) else MaxLife(n[1..], text, pos + 1);
      } else {
        assert n == NextEntries(rest, c);
        assert Life(e.m, text, pos) == 0;
      }
    }
  }

  /**
   * The ideal scan computes the reference: the recorded action is the best pick
   * (or the action already recorded), and the cursor stops after the longest
   * life among the entries.
   */
  lemma {:induction false} IdealIsBest(L: MatcherList, text: Text, pos: nat)
    requires pos < |text| && AllRunning(L.entries)
    ensures IdealScan(L, text, pos)
         == ScanResult(BestAction(L.entries, text, pos, L.actionIndex), pos + MaxLife(L.entries, text, pos))
    decreases |text| - pos
  {
    var c := text[pos];
    var next := GetNext(L, c);
    StepBest(L.entries, text, pos);
    StepMaxLife(L.entries, text, pos);
    FirstPickAction(Stepped(L.entries, c), L.actionIndex);
    if next.entries != [] {
      IdealIsBest(next, text, pos + 1);
    }
  }

  /** Entry k wins: it matches, no entry matches longer, and every earlier match is shorter. */
  ghost predicate Wins(es: seq<Entry>, text: Text, pos: nat, k: int)
    requires AllRunning(es) && pos < |text|
  {
    && 0 <= k < |es|
    && Outcome(es[k].m, text, pos) == Matched
    && (forall j :: 0 <= j < |es| && Outcome(es[j].m, text, pos) == Matched
          ==> Life(es[j].m, text, pos) <= Life(es[k].m, text, pos))
    && (forall j :: 0 <= j < k && Outcome(es[j].m, text, pos) == Matched
          ==> Life(es[j].m, text, pos) < Life(es[k].m, text, pos))
  }

  /** Best picks nothing exactly when no entry matches. */
  lemma {:induction false} BestNone(es: seq<Entry>, text: Text, pos: nat)
    requires AllRunning(es) && pos < |text|
    ensures Best(es, text, pos).NoPick?
        <==> forall j :: 0 <= j < |es| ==> Outcome(es[j].m, text, pos) != Matched
    decreases |es|
  {
    if es != [] {
      BestNone(es[1..], text, pos);
      assert forall j :: 1 <= j < |es| ==> es[j] == es[1..][j - 1];
    }
  }

  /** When Best picks, its pick is the winning entry: longest match, ties to the earliest. */
  lemma {:induction false} BestWinner(es: seq<Entry>, text: Text, pos: nat) returns (k: nat)
    requires AllRunning(es) && pos < |text|
    requires Best(es, text, pos).Pick?
    ensures Wins(es, text, pos, k)
    ensures es[k].index == Best(es, text, pos).index && Life(es[k].m, text, pos) == Best(es, text, pos).length
    decreases |es|
  {
    var rest := es[1..];
    var r := Best(rest, text, pos);
    var e := es[0];
    var l := Life(e.m, text, pos);
    if Outcome(e.m, text, pos) == Matched && (r.NoPick? || l >= r.length) {
      k := 0;
      if r.NoPick? {
        BestNone(rest, text, pos);
      } else {
        var k' := BestWinner(rest, text, pos);
      }
      forall j | 0 < j < |es| && Outcome(es[j].m, text, pos) == Matched
        ensures Life(es[j].m, text, pos) <= l
      {
        assert es[j] == rest[j - 1];
      }
    } else {
      var k' := BestWinner(rest, text, pos);
      k := k' + 1;
      assert es[k] == rest[k'];
      forall j | 0 < j < |es| && Outcome(es[j].m, text, pos) == Matched
        ensures Life(es[j].m, text, pos) <= r.length
      {
        assert es[j] == rest[j - 1];
      }
      forall j | 0 < j < k && Outcome(es[j].m, text, pos) == Matched
        ensures Life(es[j].m, text, pos) < r.length
      {
        assert es[j] == rest[j - 1];
      }
    }
  }

  /** The longest life is reached by some entry and bounds every entry's life. */
  lemma {:induction false} MaxLifeIsMax(es: seq<Entry>, text: Text, pos: nat)
    requires AllRunning(es) && pos < |text|
    ensures forall j :: 0 <= j < |es| ==> Life(es[j].m, text, pos) <= MaxLife(es, text, pos)
    ensures es != [] ==> exists j :: 0 <= j < |es| && Life(es[j].m, text, pos) == MaxLife(es, text, pos)
    decreases |es|
  {
    if es != [] {
      MaxLifeIsMax(es[1..], text, pos);
      assert forall j :: 1 <= j < |es| ==> es[j] == es[1..][j - 1];
      if |es| > 1 && Life(es[0].m, text, pos) < MaxLife(es[1..], text, pos) {
        var j :| 0 <= j < |es[1..]| && Life(es[1..][j].m, text, pos) == MaxLife(es[1..], text, pos);
        assert Life(es[j + 1].m, text, pos) == MaxLife(es, text, pos);
      }
    }
  }

  /**
   * The longest viable word of m's type that extends w with the characters of
   * text from pos on: w grows while one more character keeps it viable.
   */
  ghost function Longest(m: Matcher, w: seq<char>, text: Text, pos: nat): seq<char>
    requires pos < |text|
    decreases |text| - pos
  {
    if pos + 1 < |text| && Viable(m, w + [text[pos]]) then Longest(m, w + [text[pos]], text, pos + 1) else w
  }

  /** No viable word ends in NUL: no matcher keeps running on it. */
  lemma NulNotViable(m: Matcher, s: seq<char>)
    requires s != [] && s[|s| - 1] == '\0'
    ensures !Viable(m, s)
  {
  }

  /**
   * From a viable w, the longest extension is w followed by the next k
   * characters; it is viable and the character after it does not extend it.
   */
  lemma {:induction false} LongestMeaning(m: Matcher, w: seq<char>, text: Text, pos: nat)
    requires pos < |text| && Viable(m, w)
    ensures var r := Longest(m, w, text, pos);
            && |w| <= |r| && pos + |r| - |w| < |text|
            && r == w + text[pos..pos + |r| - |w|]
            && Viable(m, r) && !Viable(m, r + [text[pos + |r| - |w|]])
    decreases |text| - pos
  {
    var c := text[pos];
    if pos + 1 < |text| && Viable(m, w + [c]) {
      LongestMeaning(m, w + [c], text, pos + 1);
      var r := Longest(m, w, text, pos);
      var k := |r| - |w| - 1;
      assert r == w + [c] + text[pos + 1..pos + 1 + k];
      assert [c] + text[pos + 1..pos + 1 + k] == text[pos..pos + 1 + k];
    } else {
      assert text[pos..pos] == [];
      if pos + 1 == |text| {
        NulNotViable(m, w + [c]);
      }
    }
  }

  /** From the empty word, the longest extension is the longest viable prefix of the input at pos. */
  lemma LongestFromStart(m: Matcher, text: Text, pos: nat)
    requires pos < |text|
    ensures var r := Longest(m, [], text, pos);
            && pos + |r| < |text| && r == text[pos..pos + |r|]
            && Viable(m, text[pos..pos + |r|]) && !Viable(m, text[pos..pos + |r| + 1])
  {
    assert Viable(m, []) by {
      match m
      case Literal(data, _) => assert data[..0] == [];
      case _ =>
    }
    LongestMeaning(m, [], text, pos);
    var r := Longest(m, [], text, pos);
    assert [] + text[pos..pos + |r|] == text[pos..pos + |r|];
    assert r + [text[pos + |r|]] == text[pos..pos + |r| + 1];
  }

  /** The status a matcher stops with when the word it has consumed is w. */
  ghost function TokenStatus(m: Matcher, w: seq<char>): Status {
    if Token(m, w) then Matched else Failed
  }

  /**
   * Having consumed a viable word w, a matcher that runs on from pos consumes
   * exactly the characters that make up the longest viable extension of w.
   */
  lemma {:induction false} MunchLife(m: Matcher, w: seq<char>, text: Text, pos: nat)
    requires pos < |text| && Viable(m, w)
    ensures StatusOf(Run(Fresh(m), w)) == Running
    ensures |w| + Life(Run(Fresh(m), w), text, pos) == |Longest(m, w, text, pos)|
    decreases |text| - pos
  {
    var c := text[pos];
    Language(m, w, c);
    if Viable(m, w + [c]) {
      NulStops(Run(Fresh(m), w));
      RunSnoc(Fresh(m), w, c);
      MunchLife(m, w + [c], text, pos + 1);
    }
  }

  /** ... and it stops matched exactly when that extension is a token. */
  lemma {:induction false} MunchOutcome(m: Matcher, w: seq<char>, text: Text, pos: nat)
    requires pos < |text| && Viable(m, w)
    ensures StatusOf(Run(Fresh(m), w)) == Running
    ensures Outcome(Run(Fresh(m), w), text, pos) == TokenStatus(m, Longest(m, w, text, pos))
    decreases |text| - pos
  {
    var c := text[pos];
    Language(m, w, c);
    if Viable(m, w + [c]) {
      NulStops(Run(Fresh(m), w));
      RunSnoc(Fresh(m), w, c);
      MunchOutcome(m, w + [c], text, pos + 1);
    }
  }

  /**
   * A pattern consumes its maximal viable prefix of the input, and ends matched
   * exactly when that prefix is one of its tokens.
   */
  lemma Munch(m: Matcher, text: Text, pos: nat)
    requires pos < |text|
    ensures var k := Life(Fresh(m), text, pos);
            && Viable(m, text[pos..pos + k])
            && !Viable(m, text[pos..pos + k + 1])
            && (Outcome(Fresh(m), text, pos) == Matched <==> Token(m, text[pos..pos + k]))
  {
    assert Viable(m, []) by {
      match m
      case Literal(data, _) => assert data[..0] == [];
      case _ =>
    }
    assert Run(Fresh(m), []) == Fresh(m);
    MunchLife(m, [], text, pos);
    MunchOutcome(m, [], text, pos);
    LongestFromStart(m, text, pos);
  }

  /**
   * Conversely, a viable prefix of the input that cannot be extended is the one
   * a pattern consumes: its length is the pattern's life, and it ends matched
   * exactly when that prefix is a token.
   */
  lemma LifeIsLongestViable(m: Matcher, text: Text, pos: nat, k: nat)
    requires pos + k < |text|
    requires Viable(m, text[pos..pos + k]) && !Viable(m, text[pos..pos + k + 1])
    ensures Life(Fresh(m), text, pos) == k
    ensures Outcome(Fresh(m), text, pos) == (if Token(m, text[pos..pos + k]) then Matched else Failed)
  {
    Munch(m, text, pos);
    var l := Life(Fresh(m), text, pos);
    if l < k {
      ViableSlicePrefix(m, text, pos, l + 1, k);
    } else if l > k {
      ViableSlicePrefix(m, text, pos, k + 1, l);
    }
  }

  /** A viable slice of the text from pos has every shorter slice from pos viable too. */
  lemma ViableSlicePrefix(m: Matcher, text: Text, pos: nat, a: nat, b: nat)
    requires a <= b && pos + b <= |text|
    requires Viable(m, text[pos..pos + b])
    ensures Viable(m, text[pos..pos + a])
  {
    assert text[pos..pos + b][..a] == text[pos..pos + a];
    ViablePrefixes(m, text[pos..pos + b], a);
  }

  /** A literal whose whole text lies at pos consumes exactly it and matches. */
  lemma LiteralFound(data: seq<char>, text: Text, pos: nat)
    requires LiteralText(data) && pos + |data| < |text|
    requires text[pos..pos + |data|] == data
    ensures Life(Literal(data, 0), text, pos) == |data|
    ensures Outcome(Literal(data, 0), text, pos) == Matched
  {
    assert data[..|data|] == data;
    LifeIsLongestViable(Literal(data, 0), text, pos, |data|);
  }

  /** A literal whose text breaks off after k characters consumes those k and fails. */
  lemma LiteralBreaks(data: seq<char>, text: Text, pos: nat, k: nat)
    requires LiteralText(data) && k < |data| && pos + k < |text|
    requires text[pos..pos + k] == data[..k] && text[pos + k] != data[k]
    ensures Life(Literal(data, 0), text, pos) == k
    ensures Outcome(Literal(data, 0), text, pos) == Failed
  {
    var s := text[pos..pos + k + 1];
    assert s[k] == text[pos + k];
    assert s != data[..k + 1] by {
      assert data[..k + 1][k] == data[k];
    }
    LifeIsLongestViable(Literal(data, 0), text, pos, k);
  }

  /** An integer consumes the run of digits at pos, and matches when the run is not empty. */
  lemma DigitRun(text: Text, pos: nat, k: nat)
    requires pos + k < |text|
    requires forall i :: pos <= i < pos + k ==> IsDigit(text[i])
    requires !IsDigit(text[pos + k])
    ensures Life(Integer(0), text, pos) == k
    ensures Outcome(Integer(0), text, pos) == (if k == 0 then Failed else Matched)
  {
    var s := text[pos..pos + k + 1];
    var w := text[pos..pos + k];
    assert Digits(w) by {
      forall i | 0 <= i < k ensures IsDigit(w[i]) {
        assert w[i] == text[pos + i];
      }
      DigitsMeaning(w);
    }
    assert !IsDigit(s[k]);
    LifeIsLongestViable(Integer(0), text, pos, k);
  }

  /** An identifier consumes the identifier word at pos and matches. */
  lemma IdentifierFound(text: Text, pos: nat, k: nat)
    requires 0 < k && pos + k < |text|
    requires IdentStart(text[pos]) && forall i :: pos < i < pos + k ==> IdentChar(text[i])
    requires !IdentChar(text[pos + k])
    ensures Life(Identifier(0), text, pos) == k
    ensures Outcome(Identifier(0), text, pos) == Matched
  {
    var w := text[pos..pos + k];
    var s := text[pos..pos + k + 1];
    assert IdentWord(w) by {
      assert w[0] == text[pos];
      forall i | 1 <= i < k ensures IdentChar(w[i]) {
        assert w[i] == text[pos + i];
      }
      IdentWordMeaning(w);
    }
    assert !IdentChar(s[k]);
    LifeIsLongestViable(Identifier(0), text, pos, k);
  }

  /** A character that cannot start an identifier fails it at once. */
  lemma IdentifierRejected(text: Text, pos: nat)
    requires pos < |text| && !IdentStart(text[pos])
    ensures Life(Identifier(0), text, pos) == 0
    ensures Outcome(Identifier(0), text, pos) == Failed
  {
    var s := text[pos..pos + 1];
    assert s[0] == text[pos] && text[pos..pos] == [];
    LifeIsLongestViable(Identifier(0), text, pos, 0);
  }

  /**
   * Longest match, then priority: `match` as written records the pattern that
   * matches the longest token, the earliest one among equally long tokens, or no
   * action when no pattern matches; the cursor stops after the longest run of any
   * pattern, matched or not.
   */
  lemma LongestThenPriority(kinds: seq<Matcher>, text: Text, pos: nat)
    requires pos < |text|
    requires |kinds| > 0
    ensures var es := Initial(kinds).entries;
            var r := Scan(Initial(kinds), text, pos);
            && r.end == pos + MaxLife(es, text, pos)
            && (r.actionIndex == NoAction <==> forall i :: 0 <= i < |kinds| ==> Outcome(es[i].m, text, pos) != Matched)
            && (r.actionIndex != NoAction ==> Wins(es, text, pos, r.actionIndex))
  {
    var L := Initial(kinds);
    ScanIsIdeal(L, text, pos);
    IdealIsBest(L, text, pos);
    BestNone(L.entries, text, pos);
    if Best(L.entries, text, pos).Pick? {
      var k := BestWinner(L.entries, text, pos);
    }
  }

  /** A first character every pattern rejects: no action, and the cursor does not move. */
  lemma FirstCharRejected(kinds: seq<Matcher>, text: Text, pos: nat)
    requires pos < |text|
    requires |kinds| > 0
    requires forall i :: 0 <= i < |kinds| ==> StatusOf(Step(Fresh(kinds[i]), text[pos])) == Failed
    ensures Scan(Initial(kinds), text, pos) == ScanResult(NoAction, pos)
  {
    var L := Initial(kinds);
    LongestThenPriority(kinds, text, pos);
    MaxLifeIsMax(L.entries, text, pos);
  }
}
