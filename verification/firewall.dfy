/**
 The idempotent rule applier: an `IptablerSmart` instance keeps a snapshot of
 the active rules of the filter table and of the nat table, and applies a rule
 only when its canonical string is not a line of the snapshot of its table.

 The rule compiler is a function fixed when the instance is made; the two
 listing commands answer with a `Listing`; every command the instance sends
 to the firewall is recorded in the ghost log `commands`.
 */
module Firewall {
  import opened Text
  import opened RuleKey

  /** A value in a structured rule description: a string or a switch. */
  datatype OptionValue = Str(s: string) | Switch(on: bool)

  /** A structured rule description, option name to value
      (`table`, `append`, `source`, `jump`, ...). */
  datatype Rule = Rule(options: map<string, OptionValue>)

  /** What a listing command produced: its standard output, or its error. */
  datatype Listing = Output(text: string) | Failed(error: string)

  /** How an awaited call ended: resolved, or rejected with an error. */
  datatype Outcome = Ok | Err(error: string)

  /** A command sent to the firewall: list the rules of a table, or apply a rule. */
  datatype Command = ListRules(table: Table) | Applied(rule: Rule)

  /** The listing commands a refresh sends: the nat listing is issued only
      after the filter listing has succeeded. */
  function ListingCommands(filterListing: Listing): seq<Command>
  {
    if filterListing.Failed? then [ListRules(Filter)] else [ListRules(Filter), ListRules(Nat)]
  }

  /** How a refresh ends: with the first listing error, or resolved. */
  function FetchOutcome(filterListing: Listing, natListing: Listing): Outcome
  {
    if filterListing.Failed? then Err(filterListing.error)
    else if natListing.Failed? then Err(natListing.error)
    else Ok
  }

  /** The commands of an unconditional batch: every rule applied, in order. */
  function Applications(rules: seq<Rule>): (cs: seq<Command>)
    ensures |cs| == |rules|
    ensures forall i :: 0 <= i < |rules| ==> cs[i] == Applied(rules[i])
  {
    if |rules| == 0 then []
    else Applications(rules[..|rules| - 1]) + [Applied(rules[|rules| - 1])]
  }

  /** The decision against a snapshot: a rule is held when its canonical
      string already is a line of the snapshot of its table. */
  function InSnapshot(compile: Rule -> seq<string>, allRules: seq<string>,
                      allNatRules: seq<string>): Rule -> bool
  {
    rule => RuleExists(compile(rule), allRules, allNatRules)
  }

  /** The command a checked rule sends: itself applied when the snapshot does
      not hold it, nothing otherwise. */
  function SafeStep(rule: Rule, held: Rule -> bool): seq<Command>
  {
    if held(rule) then [] else [Applied(rule)]
  }

  /** The commands of a checked batch against one fixed snapshot: each rule, in
      order, applied when the snapshot does not hold it. */
  function SafeApplications(rules: seq<Rule>, held: Rule -> bool): seq<Command>
  {
    if |rules| == 0 then []
    else SafeApplications(rules[..|rules| - 1], held) + SafeStep(rules[|rules| - 1], held)
  }

  /** A checked rule is applied, once, exactly when its lookup key is not an
      element of the snapshot of the table it is routed to. */
  lemma SafeStepIff(rule: Rule, compile: Rule -> seq<string>,
                    allRules: seq<string>, allNatRules: seq<string>)
    ensures var l := Route(Canonical(compile(rule)));
            SafeStep(rule, InSnapshot(compile, allRules, allNatRules)) ==
              if (l.table == Nat && l.key in allNatRules) || (l.table == Filter && l.key in allRules)
              then [] else [Applied(rule)]
  {
    RuleExistsIff(compile(rule), allRules, allNatRules);
    RouteBySelector(Canonical(compile(rule)));
  }

  /** Once the snapshots hold the lines of the listings, a rule whose lookup
      key is one of the listed lines of its table is not applied again. */
  lemma ListedRuleNotReapplied(rule: Rule, compile: Rule -> seq<string>,
                               filterLines: seq<string>, natLines: seq<string>)
    requires |filterLines| >= 1 && |natLines| >= 1
    requires forall line :: line in filterLines ==> '\n' !in line
    requires forall line :: line in natLines ==> '\n' !in line
    requires Route(Canonical(compile(rule))).table == Filter ==>
               Route(Canonical(compile(rule))).key in filterLines
    requires Route(Canonical(compile(rule))).table == Nat ==>
               Route(Canonical(compile(rule))).key in natLines
    ensures SafeStep(rule, InSnapshot(compile, Split(Join(filterLines, "\n"), '\n'),
                                      Split(Join(natLines, "\n"), '\n'))) == []
  {
    SplitJoin(filterLines, '\n');
    SplitJoin(natLines, '\n');
    SafeStepIff(rule, compile, filterLines, natLines);
  }

  /** A checked batch grows by one rule's step at a time. */
  lemma SafeApplicationsStep(rules: seq<Rule>, i: nat, held: Rule -> bool)
    requires i < |rules|
    ensures SafeApplications(rules[..i + 1], held)
              == SafeApplications(rules[..i], held) + SafeStep(rules[i], held)
  {
    assert rules[..i + 1][..i] == rules[..i];
  }

  /** A checked batch applies exactly the rules of the batch that the snapshot
      does not hold, and nothing else. */
  lemma {:induction false} SafeApplicationsMembers(rules: seq<Rule>, held: Rule -> bool, c: Command)
    ensures c in SafeApplications(rules, held) <==> c.Applied? && c.rule in rules && !held(c.rule)
    decreases |rules|
  {
    if |rules| > 0 {
      var init := rules[..|rules| - 1];
      SafeApplicationsMembers(init, held, c);
      assert rules == init + [rules[|rules| - 1]];
    }
  }

  /** The snapshot is not updated inside a checked batch: a rule it does not
      hold is applied as many times as it occurs in the batch, a rule it holds
      never. */
  lemma {:induction false} SafeApplicationsCount(rules: seq<Rule>, held: Rule -> bool, r: Rule)
    ensures multiset(SafeApplications(rules, held))[Applied(r)] ==
              if held(r) then 0 else multiset(rules)[r]
    decreases |rules|
  {
    if |rules| > 0 {
      var init := rules[..|rules| - 1];
      SafeApplicationsCount(init, held, r);
      assert rules == init + [rules[|rules| - 1]];
    }
  }

  /** When the snapshot holds no rule of the batch, the checked batch sends the
      same commands as the unconditional one. */
  lemma {:induction false} SafeApplicationsAllAbsent(rules: seq<Rule>, held: Rule -> bool)
    requires forall r :: r in rules ==> !held(r)
    ensures SafeApplications(rules, held) == Applications(rules)
    decreases |rules|
  {
    if |rules| > 0 {
      var init := rules[..|rules| - 1];
      assert forall r :: r in init ==> r in rules;
      assert rules[|rules| - 1] in rules;
      SafeApplicationsAllAbsent(init, held);
    }
  }

  class IptablerSmart {
    /** Snapshot of the filter table, one listed line per element. */
    var allRules: seq<string>
    /** Snapshot of the nat table, one listed line per element. */
    var allNatRules: seq<string>
    /** The rule compiler: a rule description to its argument list, program name first. */
    const compile: Rule -> seq<string>
    /** Every command sent to the firewall, oldest first. */
    ghost var commands: seq<Command>

    /** Every snapshot element is one line of a listing. This invariant is
        documented and preserved by every method; no other contract relies on
        it. */
    ghost predicate Valid()
      reads this`allRules, this`allNatRules
    {
      && (forall line :: line in allRules ==> '\n' !in line)
      && (forall line :: line in allNatRules ==> '\n' !in line)
    }

    /** A new instance starts with empty snapshots and has sent nothing. */
    constructor (compile: Rule -> seq<string>)
      ensures Valid()
      ensures allRules == [] && allNatRules == []
      ensures this.compile == compile && commands == []
    {
      allRules := [];
      allNatRules := [];
      this.compile := compile;
      commands := [];
    }

    /** Lists the filter table, then the nat table, and only when both listings
        succeed replaces the two snapshots by their outputs split into lines. */
    method GetAllRules(filterListing: Listing, natListing: Listing) returns (outcome: Outcome)
      requires Valid()
      modifies this
      ensures Valid()
      ensures outcome == FetchOutcome(filterListing, natListing)
      ensures commands == old(commands) + ListingCommands(filterListing)
      ensures outcome.Ok? ==> (allRules == Split(filterListing.text, '\n')
                            && allNatRules == Split(natListing.text, '\n'))
      ensures outcome.Ok? ==> (Join(allRules, "\n") == filterListing.text
                            && Join(allNatRules, "\n") == natListing.text)
      ensures outcome.Err? ==> allRules == old(allRules) && allNatRules == old(allNatRules)
    {
      commands := commands + [ListRules(Filter)];
      if filterListing.Failed? {
        return Err(filterListing.error);
      }
      var ruleStr := filterListing.text;
      commands := commands + [ListRules(Nat)];
      if natListing.Failed? {
        return Err(natListing.error);
      }
      var natRuleStr := natListing.text;
      allRules := Split(ruleStr, '\n');
      allNatRules := Split(natRuleStr, '\n');
      JoinSplit(ruleStr, '\n');
      JoinSplit(natRuleStr, '\n');
      outcome := Ok;
    }

    /** Applies a rule unconditionally. */
    method ApplyRule(rule: Rule)
      requires Valid()
      modifies this`commands
      ensures Valid()
      ensures commands == old(commands) + [Applied(rule)]
    {
      commands := commands + [Applied(rule)];
    }

    /** Refreshes the snapshots when `updateCurrent` holds (the listings are
        what the firewall answers then), and applies the rule only when its
        canonical string is not a line of the snapshot of its table. A failed
        refresh rejects the call before anything is applied. */
    method ApplyRuleSafely(rule: Rule, updateCurrent: bool, filterListing: Listing, natListing: Listing)
      returns (outcome: Outcome)
      requires Valid()
      modifies this
      ensures Valid()
      ensures !updateCurrent ==> outcome == Ok
      ensures !updateCurrent ==> allRules == old(allRules) && allNatRules == old(allNatRules)
      ensures !updateCurrent ==>
                commands == old(commands) + SafeStep(rule, InSnapshot(compile, old(allRules), old(allNatRules)))
      ensures updateCurrent ==> outcome == FetchOutcome(filterListing, natListing)
      ensures updateCurrent && outcome.Err? ==>
                && allRules == old(allRules) && allNatRules == old(allNatRules)
                && commands == old(commands) + ListingCommands(filterListing)
      ensures updateCurrent && outcome.Ok? ==>
                && allRules == Split(filterListing.text, '\n')
                && allNatRules == Split(natListing.text, '\n')
                && commands == old(commands) + ListingCommands(filterListing)
                               + SafeStep(rule, InSnapshot(compile, allRules, allNatRules))
    {
      if updateCurrent {
        outcome := GetAllRules(filterListing, natListing);
        if outcome.Err? {
          return;
        }
      } else {
        outcome := Ok;
      }

      var ruleExists := RuleExists(compile(rule), allRules, allNatRules);
      if !ruleExists {
        ApplyRule(rule);
      }
    }

    /** Refreshes the snapshots once, then checks every rule, in order, against
        that same snapshot. */
    method ApplyRulesSafely(rules: seq<Rule>, filterListing: Listing, natListing: Listing)
      returns (outcome: Outcome)
      requires Valid()
      modifies this
      ensures Valid()
      ensures outcome == FetchOutcome(filterListing, natListing)
      ensures outcome.Ok? ==> (allRules == Split(filterListing.text, '\n')
                            && allNatRules == Split(natListing.text, '\n'))
      ensures outcome.Err? ==> allRules == old(allRules) && allNatRules == old(allNatRules)
      ensures commands == old(commands) + ListingCommands(filterListing)
                          + (if outcome.Ok? then SafeApplications(rules, InSnapshot(compile, allRules, allNatRules))
                             else [])
    {
      outcome := GetAllRules(filterListing, natListing);
      if outcome.Err? {
        return;
      }
      CheckEach(rules);
    }

    /** The loop of a checked batch: every rule, in order, checked against the
        current snapshot without refreshing it, so the snapshot stays as it is. */
    method CheckEach(rules: seq<Rule>)
      requires Valid()
      modifies this
      ensures Valid()
      ensures allRules == old(allRules) && allNatRules == old(allNatRules)
      ensures commands == old(commands) + SafeApplications(rules, InSnapshot(compile, allRules, allNatRules))
    {
      var i := 0;
      while i < |rules|
        invariant 0 <= i <= |rules|
        invariant allRules == old(allRules) && allNatRules == old(allNatRules)
        invariant Valid()
        invariant commands == old(commands) + SafeApplications(rules[..i], InSnapshot(compile, allRules, allNatRules))
      {
        var _ := ApplyRuleSafely(rules[i], false, Failed(""), Failed(""));
        SafeApplicationsStep(rules, i, InSnapshot(compile, allRules, allNatRules));
        i := i + 1;
      }
      assert rules[..|rules|] == rules;
    }

    /** Applies every rule, in order, with no check. */
    method ApplyRules(rules: seq<Rule>)
      requires Valid()
      modifies this`commands
      ensures Valid()
      ensures commands == old(commands) + Applications(rules)
    {
      var i := 0;
      while i < |rules|
        invariant 0 <= i <= |rules|
        invariant commands == old(commands) + Applications(rules[..i])
      {
        ApplyRule(rules[i]);
        assert rules[..i + 1][..i] == rules[..i];
        i := i + 1;
      }
      assert rules[..|rules|] == rules;
    }
  }
}
