/**
 The decision at the heart of `applyRuleSafely`: the compiled argument list of a
 rule becomes a canonical string, the string picks the table whose snapshot is
 searched, and the rule exists when some snapshot line equals the lookup key.
 */
module RuleKey {
  import opened Text

  /** The table-selection flag whose presence routes a rule to the nat table. */
  const NatSelector: string := "-t nat"

  datatype Table = Filter | Nat

  /** Which snapshot list is searched, and for which exact line. */
  datatype Lookup = Lookup(table: Table, key: string)

  /** The compiled arguments without their first (program-name) token, joined
      with single spaces. An empty argument list gives the empty string. */
  function Canonical(args: seq<string>): string
  {
    if |args| == 0 then "" else Join(args[1..], " ")
  }

  /** The canonical string keeps every argument after the first: splitting it
      on spaces gives them back when none of them holds a space. */
  lemma CanonicalTokens(args: seq<string>)
    requires |args| >= 2
    requires forall t :: t in args[1..] ==> ' ' !in t
    ensures Split(Canonical(args), ' ') == args[1..]
  {
    SplitJoin(args[1..], ' ');
  }

  /** The canonical string does not depend on the program-name token. */
  lemma CanonicalIgnoresProgram(p: string, q: string, rest: seq<string>)
    ensures Canonical([p] + rest) == Canonical([q] + rest)
  {
    assert ([p] + rest)[1..] == rest == ([q] + rest)[1..];
  }

  /** The nat lookup key: the first selector removed, then the ends trimmed. */
  function StripNat(ruleStr: string): string
  {
    Trim(ReplaceFirst(ruleStr, NatSelector, ""))
  }

  /** Table routing by substring search for the selector. */
  function Route(ruleStr: string): Lookup
  {
    if Contains(ruleStr, NatSelector) then Lookup(Nat, StripNat(ruleStr))
    else Lookup(Filter, ruleStr)
  }

  /** A rule string goes to the nat table exactly when the selector occurs in
      it anywhere; a filter rule is looked up untouched, a nat rule under a key
      shorter by at least the selector that neither starts nor ends with
      whitespace. */
  lemma RouteBySelector(ruleStr: string)
    ensures Route(ruleStr).table == Nat <==> exists i :: OccursAt(ruleStr, NatSelector, i)
    ensures Route(ruleStr).table == Filter ==> Route(ruleStr).key == ruleStr
    ensures Route(ruleStr).table == Nat ==> |Route(ruleStr).key| <= |ruleStr| - |NatSelector|
    ensures var key := Route(ruleStr).key;
            Route(ruleStr).table == Nat && key != [] ==>
              !IsWhitespace(key[0]) && !IsWhitespace(key[|key| - 1])
  {
    ContainsIff(ruleStr, NatSelector);
    var stripped := ReplaceFirst(ruleStr, NatSelector, "");
    TrimEnds(stripped);
  }

  /** Only the first selector is removed: the nat key is the trimmed text around
      it, a later selector left in place. */
  lemma RouteNatSplice(a: string, b: string)
    requires forall i :: 0 <= i < |a| ==> !OccursAt(a + NatSelector + b, NatSelector, i)
    ensures Route(a + NatSelector + b) == Lookup(Nat, Trim(a + b))
  {
    var s := a + NatSelector + b;
    assert s[|a|..|a| + |NatSelector|] == NatSelector;
    assert OccursAt(s, NatSelector, |a|);
    ContainsIff(s, NatSelector);
    ReplaceFirstSplice(a, NatSelector, b, "");
    assert a + "" + b == a + b;
  }

  /** The canonical string of arguments whose first two after the program
      name are `-t` and `nat`. */
  lemma CanonicalNatPrefix(args: seq<string>)
    requires |args| >= 4 && args[1] == "-t" && args[2] == "nat"
    ensures Canonical(args) == NatSelector + (" " + Join(args[3..], " "))
  {
    var t := Join(args[3..], " ");
    assert args[1..][1..] == args[2..];
    assert args[2..][1..] == args[3..];
    assert Join(args[2..], " ") == "nat" + " " + t;
    assert Join(args[1..], " ") == "-t" + " " + Join(args[2..], " ");
    assert "-t" + " " + ("nat" + " " + t) == ("-t" + " " + "nat") + (" " + t);
    assert "-t" + " " + "nat" == NatSelector;
  }

  /** A compiled nat rule whose arguments after the program name start with
      `-t nat` is looked up in the nat table under the remaining arguments,
      joined with spaces. */
  lemma RouteCompiledNatRule(args: seq<string>)
    requires |args| >= 4 && args[1] == "-t" && args[2] == "nat"
    requires Join(args[3..], " ") != []
    requires !IsWhitespace(Join(args[3..], " ")[0])
    requires !IsWhitespace(Join(args[3..], " ")[|Join(args[3..], " ")| - 1])
    ensures Route(Canonical(args)) == Lookup(Nat, Join(args[3..], " "))
  {
    var t := Join(args[3..], " ");
    CanonicalNatPrefix(args);
    RouteLeadingSelector(" " + t);
    TrimLeadingSpace(t);
  }

  /** A string that starts with the selector is a nat rule keyed by the trimmed
      remainder. */
  lemma RouteLeadingSelector(u: string)
    ensures Route(NatSelector + u) == Lookup(Nat, Trim(u))
  {
    assert [] + NatSelector + u == NatSelector + u;
    assert [] + u == u;
    RouteNatSplice([], u);
  }

  /** Whether the rule's canonical string already is a line of the snapshot of
      its table: `allNatRules` for nat rules, `allRules` for the others. */
  function RuleExists(args: seq<string>, allRules: seq<string>, allNatRules: seq<string>): bool
  {
    var l := Route(Canonical(args));
    match l.table
    case Nat => ElementIndex(allNatRules, l.key) >= 0
    case Filter => ElementIndex(allRules, l.key) >= 0
  }

  /** A rule exists exactly when its lookup key is an element of the snapshot
      of its table. */
  lemma RuleExistsIff(args: seq<string>, allRules: seq<string>, allNatRules: seq<string>)
    ensures RuleExists(args, allRules, allNatRules) <==>
              (var l := Route(Canonical(args));
               (l.table == Nat && l.key in allNatRules) ||
               (l.table == Filter && Canonical(args) in allRules))
  {
    var l := Route(Canonical(args));
    ElementIndexFirst(allNatRules, l.key);
    ElementIndexFirst(allRules, l.key);
  }

  /** A nat rule is never compared against the filter snapshot, and a filter
      rule never against the nat snapshot. */
  lemma TablesAreSeparate(args: seq<string>, allRules: seq<string>, otherRules: seq<string>,
                          allNatRules: seq<string>, otherNatRules: seq<string>)
    ensures Route(Canonical(args)).table == Nat ==>
              RuleExists(args, allRules, allNatRules) == RuleExists(args, otherRules, allNatRules)
    ensures Route(Canonical(args)).table == Filter ==>
              RuleExists(args, allRules, allNatRules) == RuleExists(args, allRules, otherNatRules)
  {
  }
}
