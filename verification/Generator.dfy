/** `fsm_generate_matches` as a whole. The machine is trimmed before anything is generated, and
trimming renumbers the states; but the number of the start state is read before that. */
module Generator {
  import opened Automata
  import opened EdgeSets
  import opened Generate
  import opened Minimality
  import opened Paths
  import opened Trim

  /** Success, failure, or the failed assertion that there is a state to enter. */
  datatype GenResult = Done | Refused | NoSuchState

  /** The start and every state numbered below it lie on a path from the start to an end. */
  ghost predicate StartInPlace(m: Fsm) {
    m.start.Some? && forall s: nat :: s <= m.start.value ==> Kept(m, s)
  }

  lemma {:induction false} RankFull(visited: seq<bool>, i: nat)
    requires i <= |visited|
    ensures Rank(visited, i) == i <==> forall k :: 0 <= k < i ==> visited[k]
  {
    if i > 0 {
      RankFull(visited, i - 1);
    }
  }

  ghost predicate MarkedUpTo(visited: seq<bool>, b: nat) {
    b < |visited| && forall s :: 0 <= s <= b ==> visited[s]
  }

  lemma InPlaceMarks(m: Fsm, visited: seq<bool>, d: Fsm)
    requires WellFormed(m) && m.start.Some? && IsTrimmed(m, visited, d)
    ensures StartInPlace(m) <==> MarkedUpTo(visited, m.start.value)
  {
    var sed :| MarkedExactly(m, visited, sed);
    var b := m.start.value;
    if StartInPlace(m) {
      forall s: nat | s <= b
        ensures visited[s]
      {
        assert Kept(m, s);
      }
    }
    if MarkedUpTo(visited, b) {
      forall s: nat | s <= b
        ensures Kept(m, s)
      {
        assert visited[s];
      }
    }
  }

  lemma MarkedRank(visited: seq<bool>, b: nat)
    requires b < |visited|
    ensures MarkedUpTo(visited, b) <==> visited[b] && Rank(visited, b) == b
  {
    RankFull(visited, b);
  }

  /** The number read before trimming is that of the trimmed machine's start exactly when
      trimming removes neither the start nor a state before it. */
  lemma EntryExactly(m: Fsm, visited: seq<bool>, d: Fsm)
    requires WellFormed(m) && m.start.Some? && IsTrimmed(m, visited, d)
    ensures d.start == m.start <==> StartInPlace(m)
  {
    InPlaceMarks(m, visited, d);
    MarkedRank(visited, m.start.value);
  }

  // ----- paths before and after trimming -----

  function Renamed(visited: seq<bool>, q: seq<nat>): (r: seq<nat>)
    requires forall k :: 0 <= k < |q| ==> q[k] <= |visited|
    ensures |r| == |q| && forall k :: 0 <= k < |q| ==> r[k] == Rank(visited, q[k])
  {
    seq(|q|, k requires 0 <= k < |q| => Rank(visited, q[k]))
  }

  ghost predicate AllKept(visited: seq<bool>, q: seq<nat>) {
    forall k :: 0 <= k < |q| ==> q[k] < |visited| && visited[q[k]]
  }

  lemma RenamedBetween(m: Fsm, visited: seq<bool>, d: Fsm, s: nat, t: nat)
    requires IsDfa(m) && IsDfa(d) && IsSwept(m, visited, d) && |visited| < NO_STATE
    requires s < |visited| && t < |visited| && visited[s] && visited[t]
    ensures Between(d, Rank(visited, s), Rank(visited, t)) == Between(m, s, t)
  {
    assert Swept(m, visited, s, d.states[Rank(visited, s)], |d.states|);
    assert Swept(m, visited, t, d.states[Rank(visited, t)], |d.states|);
    forall c: Byte
      ensures c in Between(d, Rank(visited, s), Rank(visited, t)) <==> c in Between(m, s, t)
    {
      BetweenStep(m, s, t, c);
      BetweenStep(d, Rank(visited, s), Rank(visited, t), c);
      SweptStep(m, visited, d, s, c);
      var u := Step(m, s, c);
      if u < t {
        RankMonotone(visited, u, t);
      } else if u < |visited| {
        RankMonotone(visited, t, u);
      }
    }
  }

  lemma RenamedSpells(m: Fsm, visited: seq<bool>, d: Fsm, q: seq<nat>, w: seq<Byte>)
    requires IsDfa(m) && IsDfa(d) && IsSwept(m, visited, d) && |visited| < NO_STATE && AllKept(visited, q)
    ensures Spells(d, Renamed(visited, q), w) <==> Spells(m, q, w)
  {
    var r := Renamed(visited, q);
    if |q| == |w| + 1 {
      forall k | 0 <= k < |w|
        ensures SpellsAt(d, r, w, k) <==> SpellsAt(m, q, w, k)
      {
        RenamedBetween(m, visited, d, q[k], q[k + 1]);
      }
    }
  }

  /** All states of a path from the start to an end are kept. */
  lemma TargetKept(m: Fsm, visited: seq<bool>, sed: seq<int>, max: nat, q: seq<nat>, k: nat)
    requires IsDfa(m) && MarkedExactly(m, visited, sed) && IsTarget(m, max, q) && k < |q|
    ensures q[k] < |visited| && visited[q[k]]
  {
    var u := PathLeads(m, q, k);
    assert ReachedOn(m, q[k], u);
    var v := RestLeads(m, q, k);
    var n := HasDistance(m, q[k], v);
    assert Kept(m, q[k]);
  }

  lemma RenamedTarget(m: Fsm, visited: seq<bool>, sed: seq<int>, d: Fsm, max: nat, q: seq<nat>)
    requires IsDfa(m) && IsDfa(d) && IsSwept(m, visited, d) && |visited| < NO_STATE && MarkedExactly(m, visited, sed)
    requires IsTarget(m, max, q)
    ensures AllKept(visited, q) && IsTarget(d, max, Renamed(visited, q))
  {
    forall k | 0 <= k < |q|
      ensures q[k] < |visited| && visited[q[k]]
    {
      TargetKept(m, visited, sed, max, q, k);
    }
    var r := Renamed(visited, q);
    forall k | 0 <= k < |r|
      ensures r[k] < |d.states| && d.states[r[k]].end == m.states[q[k]].end
    {
      assert Swept(m, visited, q[k], d.states[r[k]], |d.states|);
    }
    forall k | 0 <= k < |r| - 1
      ensures JoinedAt(d, r, k)
    {
      assert JoinedAt(m, q, k);
      RenamedBetween(m, visited, d, q[k], q[k + 1]);
    }
  }

  // ----- the matches, for the machine before trimming -----

  /** Each string is accepted by `m`, short enough, and comes once; the state reported is the
      one reached, under its new number. */
  ghost predicate SoundBefore(m: Fsm, visited: seq<bool>, max: nat, matches: seq<Match>) {
    && (forall i :: 0 <= i < |matches| ==> SoundBeforeAt(m, visited, max, matches[i]))
    && (forall i, j :: 0 <= i < j < |matches| ==> matches[i].word != matches[j].word)
  }

  ghost predicate SoundBeforeAt(m: Fsm, visited: seq<bool>, max: nat, x: Match) {
    && Outcome(m, x.word).Some? && |x.word| <= max
    && var s := Run(m, m.start.value, x.word); s < |visited| && visited[s] && x.end == Rank(visited, s)
  }

  lemma SoundCarries(m: Fsm, visited: seq<bool>, sed: seq<int>, d: Fsm, max: nat, matches: seq<Match>)
    requires IsDfa(m) && IsDfa(d) && IsSwept(m, visited, d) && |visited| < NO_STATE && MarkedExactly(m, visited, sed)
    requires d.start.Some? && Sound(d, max, matches)
    ensures SoundBefore(m, visited, max, matches)
  {
    forall i | 0 <= i < |matches|
      ensures SoundBeforeAt(m, visited, max, matches[i])
    {
      var x := matches[i];
      assert SoundAt(d, max, x);
      SweptRun(m, visited, sed, d, m.start.value, x.word);
      SweptObserves(m, visited, sed, d, m.start.value, x.word);
    }
  }

  lemma AccountedCarries(m: Fsm, visited: seq<bool>, sed: seq<int>, d: Fsm, max: nat, matches: seq<Match>)
    requires IsDfa(m) && IsDfa(d) && IsSwept(m, visited, d) && |visited| < NO_STATE && MarkedExactly(m, visited, sed)
    requires Accounted(d, max, matches)
    ensures Accounted(m, max, matches)
  {
    forall q | IsTarget(m, max, q)
      ensures SpelledOnce(m, q, matches) || PrunedBefore(m, q, matches)
    {
      RenamedTarget(m, visited, sed, d, max, q);
      var r := Renamed(visited, q);
      if SpelledOnce(d, r, matches) {
        SpelledCarries(m, visited, d, q, matches);
      } else {
        PrunedCarries(m, visited, d, q, matches);
      }
    }
  }

  lemma SpelledCarries(m: Fsm, visited: seq<bool>, d: Fsm, q: seq<nat>, matches: seq<Match>)
    requires IsDfa(m) && IsDfa(d) && IsSwept(m, visited, d) && |visited| < NO_STATE && AllKept(visited, q)
    requires SpelledOnce(d, Renamed(visited, q), matches)
    ensures SpelledOnce(m, q, matches)
  {
    var r := Renamed(visited, q);
    var i :| 0 <= i < |matches| && SpelledOnlyBy(d, r, matches, i);
    forall j | 0 <= j < |matches|
      ensures Spells(d, r, matches[j].word) <==> Spells(m, q, matches[j].word)
    {
      RenamedSpells(m, visited, d, q, matches[j].word);
    }
    assert SpelledOnlyBy(m, q, matches, i);
  }

  lemma PrunedCarries(m: Fsm, visited: seq<bool>, d: Fsm, q: seq<nat>, matches: seq<Match>)
    requires IsDfa(m) && IsDfa(d) && IsSwept(m, visited, d) && |visited| < NO_STATE && AllKept(visited, q)
    requires PrunedBefore(d, Renamed(visited, q), matches)
    ensures PrunedBefore(m, q, matches)
  {
    var r := Renamed(visited, q);
    var i, k :| 0 <= i < |matches| && 0 < k < |r| && PrunedAt(d, r, matches, i, k);
    assert r[..k] == Renamed(visited, q[..k]);
    RenamedSpells(m, visited, d, q[..k], matches[i].word);
    assert PrunedAt(m, q, matches, i, k);
  }

  // ----- the whole -----

  /** Generate the matches of a DFA without empty groups. The number of the start is read, the
      machine is trimmed, and the state that has that number now is entered. If the start is in
      place, exactly the strings wanted are emitted; if not, those from another state are, or
      there is no such state. */
  method FsmGenerateMatches(m: Fsm, maxLength: nat, randomized: bool, rand: nat -> nat,
                            cb: (seq<Match>, seq<Byte>, nat) -> CbRes)
    returns (res: GenResult, matches: seq<Match>, d: Fsm, ghost marks: seq<bool>, ghost paths: seq<seq<nat>>)
    requires IsDfa(m) && |m.states| < NO_STATE && forall s :: 0 <= s < |m.states| ==> Tidy(m.states[s].edges)
    ensures res.Refused? <==> maxLength == 0 || (HasEnd(m) && m.start.None?)
    ensures if res.Refused? || !HasEnd(m) then d == m else IsTrimmed(m, marks, d) && IsDfa(d)
    ensures !res.Refused? && HasEnd(m) ==> (res.NoSuchState? <==> m.start.value >= |d.states|)
    ensures !HasEnd(m) ==> !res.NoSuchState?
    ensures !res.Done? || !HasEnd(m) ==> matches == []
    ensures AnsweredBy(cb, matches)
    ensures res.Done? && HasEnd(m) ==> Traced(From(d, m.start.value), maxLength, randomized, rand, matches, paths)
    ensures res.Done? && HasEnd(m) ==> Sound(From(d, m.start.value), maxLength, matches)
    ensures res.Done? && HasEnd(m) && !Halts(matches) ==> Accounted(From(d, m.start.value), maxLength, matches)
    ensures maxLength > 0 && StartInPlace(m) ==>
              res.Done? && SoundBefore(m, marks, maxLength, matches) && (!Halts(matches) ==> Accounted(m, maxLength, matches))
  {
    d, matches, marks, paths := m, [], [], [];
    if maxLength == 0 {
      return Refused, [], d, marks, [];
    }
    var found := FindEnd(m);
    if !found {
      if StartInPlace(m) {
        InPlaceHasEnd(m);
      }
      return Done, [], d, marks, [];
    }
    if m.start.None? {
      return Refused, [], d, marks, [];
    }
    var dist, nulls;
    d, dist, nulls, marks := FsmTrim(m, {});
    EntryExactly(m, marks, d);
    if m.start.value >= |d.states| {
      return NoSuchState, [], d, marks, [];
    }
    matches, paths := GenerateFrom(d, m.start.value, dist[..], maxLength, randomized, rand, cb);
    res := Done;
    if StartInPlace(m) {
      InPlaceCarries(m, marks, d, maxLength, matches);
    }
  }

  lemma InPlaceHasEnd(m: Fsm)
    requires StartInPlace(m)
    ensures HasEnd(m)
  {
    var b := m.start.value;
    assert Kept(m, b);
    var k: nat :| IsEndDistance(m, b, k);
    var w: seq<Byte> :| |w| == k && Observe(m, Run(m, b, w)).Some?;
  }

  lemma InPlaceCarries(m: Fsm, visited: seq<bool>, d: Fsm, max: nat, matches: seq<Match>)
    requires IsDfa(m) && IsDfa(d) && IsTrimmed(m, visited, d) && |m.states| < NO_STATE && StartInPlace(m)
    requires Sound(From(d, m.start.value), max, matches)
    requires !Halts(matches) ==> Accounted(From(d, m.start.value), max, matches)
    ensures SoundBefore(m, visited, max, matches)
    ensures !Halts(matches) ==> Accounted(m, max, matches)
  {
    EntryExactly(m, visited, d);
    assert From(d, m.start.value) == d;
    var sed :| MarkedExactly(m, visited, sed);
    SoundCarries(m, visited, sed, d, max, matches);
    if !Halts(matches) {
      AccountedCarries(m, visited, sed, d, max, matches);
    }
  }

  // ----- an example -----

  /** The start is state 1, which an `a` takes to state 2; state 0 is out of reach. */
  function StaleExample(): (m: Fsm)
    ensures m.start == Some(1) && |m.states| == 3
  {
    Fsm([State([], {}, true, {}), State([Group({97}, 2)], {}, false, {}), State([], {}, true, {})], Some(1))
  }

  lemma StaleSteps()
    ensures var m := StaleExample();
            && IsDfa(m) && (forall s :: 0 <= s < |m.states| ==> Tidy(m.states[s].edges))
            && (forall c: Byte :: Step(m, 1, c) == if c == 97 then 2 else 3)
            && (forall c: Byte :: Step(m, 2, c) == 3)
  {
    var m := StaleExample();
    var es := m.states[1].edges;
    forall c: Byte
      ensures FindIndex(es, c) == if c == 97 then 0 else 1
    {
      if c == 97 {
        FindIndexUnique(es, c, 0);
      }
    }
    assert 97 in es[0].symbols;
  }

  lemma StaleRuns(w: seq<Byte>)
    ensures var m := StaleExample(); Run(m, 1, w) == if w == [] then 1 else if w == [97] then 2 else 3
  {
    var m := StaleExample();
    StaleSteps();
    if |w| > 0 {
      var t := Step(m, 1, w[0]);
      if t == 3 {
        RunDead(m, w[1..]);
      } else if |w| > 1 {
        RunDead(m, w[1..][1..]);
      }
    }
  }

  lemma StaleKept()
    ensures var m := StaleExample(); !Kept(m, 0) && Kept(m, 1) && Kept(m, 2)
  {
    var m := StaleExample();
    forall w: seq<Byte>
      ensures !ReachedOn(m, 0, w)
    {
      StaleRuns(w);
    }
    StaleRuns([]);
    StaleRuns([97]);
    assert ReachedOn(m, 1, []) && ReachedOn(m, 2, [97]);
    var k := HasDistance(m, 1, [97]);
    var e: seq<Byte> := [];
    assert Run(m, 2, e) == 2;
    var j := HasDistance(m, 2, e);
  }

  /** After trimming, the old start number belongs to the end state. */
  lemma StaleTrimmed(visited: seq<bool>, d: Fsm)
    requires IsTrimmed(StaleExample(), visited, d)
    ensures |d.states| == 2 && d.start == Some(0) && d.states[1].end && d.states[1].edges == []
  {
    var m := StaleExample();
    var sed :| MarkedExactly(m, visited, sed);
    StaleKept();
    assert !visited[0] && visited[1] && visited[2];
    assert Rank(visited, 1) == 0 && Rank(visited, 2) == 1 && Rank(visited, 3) == 2;
    assert Swept(m, visited, 2, d.states[1], |d.states|);
  }

  /** From an end without edges only the empty string is emitted. */
  lemma OnlyEmpty(d: Fsm, e: nat, max: nat, matches: seq<Match>)
    requires e < |d.states| && d.states[e].end && d.states[e].edges == []
    requires Sound(From(d, e), max, matches) && Accounted(From(d, e), max, matches)
    ensures |matches| == 1 && matches[0].word == []
  {
    var m := From(d, e);
    assert IsTarget(m, max, [e]);
    forall i | 0 <= i < |matches|
      ensures matches[i].word == []
    {
      var w := matches[i].word;
      assert SoundAt(m, max, matches[i]);
      if w != [] {
        assert Step(m, e, w[0]) == |m.states|;
        RunDead(m, w[1..]);
      }
    }
    assert SpelledOnce(m, [e], matches);
    if |matches| > 1 {
      FirstTwoDiffer(m, max, matches);
    }
  }

  lemma FirstTwoDiffer(m: Fsm, max: nat, matches: seq<Match>)
    requires Sound(m, max, matches) && |matches| > 1
    ensures matches[0].word != matches[1].word
  {
  }

  /** The code emits the empty string, which is not accepted, and misses the only string that is. */
  method StaleStart(maxLength: nat, randomized: bool, rand: nat -> nat) returns (matches: seq<Match>)
    requires maxLength > 0
    ensures |matches| == 1 && matches[0].word == [] && Outcome(StaleExample(), []).None?
    ensures Outcome(StaleExample(), [97]).Some? && !StartInPlace(StaleExample())
  {
    StaleSteps();
    var res, d;
    ghost var marks, paths;
    res, matches, d, marks, paths := FsmGenerateMatches(StaleExample(), maxLength, randomized, rand, (h, w, e) => Continue);
    assert StaleExample().states[0].end;
    StaleTrimmed(marks, d);
    AlwaysContinued(matches);
    OnlyEmpty(d, 1, maxLength, matches);
    StaleRuns([]);
    StaleRuns([97]);
    EntryExactly(StaleExample(), marks, d);
  }

  lemma AlwaysContinued(matches: seq<Match>)
    requires AnsweredBy((h, w, e) => Continue, matches)
    ensures !Halts(matches)
  {
  }
}
