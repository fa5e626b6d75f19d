/** How the number of token slots decides between success and NoMemory. */
module JsonCapacity {
  import opened Core
  import opened JsonMachine

  /** A run never drops a token. */
  lemma {:induction false} RunOnlyAdds(js: string, cap: nat, s: State)
    requires s.pos <= |js| && WellFormed(s) && Run(js, cap, s).Ok?
    ensures |s.toks| <= |Run(js, cap, s).value| && (|s.toks| <= cap ==> |Run(js, cap, s).value| <= cap)
    decreases |js| - s.pos
  {
    if s.pos < |js| {
      RunOnlyAdds(js, cap, Step(js, cap, s).value);
    }
  }

  /** Two runs over the same document, side by side, from the same state. */
  lemma {:induction false} TwoRuns(js: string, cap: nat, cap': nat, s: State)
    requires s.pos <= |js| && WellFormed(s) && |s.toks| <= cap && |s.toks| <= cap' && Run(js, cap, s).Ok?
    ensures Run(js, cap', s) == if |Run(js, cap, s).value| <= cap' then Run(js, cap, s) else Err(NoMemory)
    decreases |js| - s.pos
  {
    if s.pos < |js| {
      var next := Step(js, cap, s).value;
      RunOnlyAdds(js, cap, next);
      if |next.toks| <= cap' {
        assert Step(js, cap', s) == Ok(next);
        TwoRuns(js, cap, cap', next);
      } else {
        assert Step(js, cap', s) == Err(NoMemory);
      }
    }
  }

  /** A document that parses into n tokens parses identically with n or more slots, and into NoMemory with fewer. */
  lemma CapacityThreshold(js: string, cap: nat, cap': nat)
    requires Parse(js, cap).Ok?
    ensures var n := |Parse(js, cap).value|;
            && n <= cap
            && Parse(js, cap') == if cap' >= n then Parse(js, cap) else Err(NoMemory)
  {
    RunOnlyAdds(js, cap, START);
    TwoRuns(js, cap, cap', START);
  }
}
