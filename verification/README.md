# iptabler-smart, modelled in Dafny

`IptablerSmart` applies firewall rules idempotently. An instance keeps a
snapshot of the active rules. `allRules` holds the lines of the filter-table
listing and `allNatRules` the lines of the nat-table listing. Before applying
a rule, the instance compiles the rule to an argument list. It drops the first
argument and joins the rest with spaces to get a canonical string. It then
applies the rule only when that string is not a line of the snapshot of its
table.

A rule whose canonical string contains `-t nat` is routed to the nat table.
Its key is the string with the first `-t nat` removed and the ends trimmed.
Any other rule is looked up in the filter table under the unchanged string.
The batch form refreshes the snapshot once and checks every rule against that
same snapshot. The unsafe forms apply unconditionally.

The project has three modules:

- `Text` (`text.dfy`) models the JavaScript built-ins the applier relies on:
  - `split` with a one-character separator;
  - `join`;
  - string `indexOf`;
  - `replace` with a string pattern;
  - `trim`, with the ECMAScript whitespace set;
  - array `indexOf` with strict equality.
- `RuleKey` (`rule_key.dfy`) is the pure decision inside `applyRuleSafely`:
  the canonical string, the table routing, and the existence test.
- `Firewall` (`firewall.dfy`) holds the class `IptablerSmart`. Its fields are
  the two snapshots and the rule compiler. A ghost log `commands` records
  every command the instance sends to the firewall: each listing and each rule
  applied. Beside the class are the functions that specify the batch
  operations, and the lemmas about them.

External collaborators are modelled as follows:

- **The rule compiler.** The `iptabler` library builds a command from a rule
  description. It is a foreign library and is not part of this model. Here it
  is a function `compile: Rule -> seq<string>`, fixed when the instance is
  made. Its result is the argument list, program name first.
- **The listings.** The two listing commands are process executions. Each
  becomes an input value `Listing` to the methods that refresh the snapshot:
  either `Output(text)` or `Failed(error)`. A rejected promise becomes the
  result `Err(error)`.
- **Ordering.** The calls are awaited one after another, so the model runs
  them as sequential methods. As in the code, the nat listing is issued only
  after the filter listing succeeded. `applyRule` awaits whatever `exec(cb)`
  returns, not the callback (lib/iptablerSmart.js:77), so an apply command may
  still be running when the next listing or apply is sent. The ghost log
  `commands` records the order in which commands are sent, not the order in
  which they complete.

The library departs from what its own tests suggest in two places, and the
model follows the library:

- The tests pass placeholder replacement maps (test/iptablerSmart.js:125-128,
  187-191, 233-236, 291-294), but `applyRuleSafely`, `applyRulesSafely`,
  `applyRule` and `applyRules` take no such parameter (lib/iptablerSmart.js:43,
  68, 76, 84), so the maps are ignored.
- `applyRule`'s `exec` callback takes `(stdout, err)`, the reverse of the order
  in which the callback is invoked (test/iptablerSmart.js:17), and throws inside
  the callback (lib/iptablerSmart.js:77-81). So an apply failure never rejects
  the awaited call, and the model's `ApplyRule` always succeeds.

## Model

| member | source | states |
|---|---|---|
| Firewall.IptablerSmart.constructor | lib/iptablerSmart.js:5-8 | a new instance has empty filter and nat snapshots, satisfies the line invariant, and has sent nothing |
| Firewall.IptablerSmart.GetAllRules | lib/iptablerSmart.js:21-41 | lists the filter table, then the nat table only if the first listing succeeded. On success, both snapshots are replaced by exactly the `split('\n')` of their listings. Joining each new snapshot with `'\n'` gives its listing text back. On either failure, the call rejects with that listing's error and both snapshots keep their old values. The snapshot elements never contain a newline |
| Firewall.IptablerSmart.ApplyRuleSafely | lib/iptablerSmart.js:43-66 | with `updateCurrent` set, it refreshes first; a failed refresh rejects and applies nothing, leaving the snapshots unchanged. Without `updateCurrent`, nothing is listed, the snapshots do not change, and the call resolves. In both cases the rule is applied at most once, and exactly when the (possibly refreshed) snapshot does not hold it |
| Firewall.IptablerSmart.ApplyRulesSafely | lib/iptablerSmart.js:68-73 | refreshes once, rejecting with the listing error and applying nothing on failure. On success, the snapshots are the new listings' lines, and the commands sent after the two listings are the checked batch against that one snapshot |
| Firewall.IptablerSmart.CheckEach | lib/iptablerSmart.js:70-72 | checks the rules in order without refreshing. The snapshots stay exactly as they were, and the commands sent are the checked batch against them |
| Firewall.IptablerSmart.ApplyRule | lib/iptablerSmart.js:76-82 | sends exactly one command, applying the rule, and changes neither snapshot |
| Firewall.IptablerSmart.ApplyRules | lib/iptablerSmart.js:84-88 | sends exactly one apply command per rule, in batch order, with no listing and no check |
| Firewall.Applications | lib/iptablerSmart.js:84-88 | the unconditional batch has one command per rule, the i-th applying the i-th rule |
| Firewall.SafeStepIff | lib/iptablerSmart.js:53-65 | a checked rule is applied, once, exactly when its lookup key is not an element of the snapshot of the table it is routed to; otherwise nothing is sent |
| Firewall.ListedRuleNotReapplied | lib/iptablerSmart.js:39-65 | after a refresh from listings made of separate lines, a rule whose key is one of the listed lines of its table is not applied again |
| Firewall.SafeApplicationsStep | lib/iptablerSmart.js:70-72 | each loop iteration extends the checked batch by exactly one rule's step |
| Firewall.SafeApplicationsMembers | lib/iptablerSmart.js:68-73 | a checked batch applies a command exactly when it applies a rule of the batch that the snapshot does not hold |
| Firewall.SafeApplicationsCount | lib/iptablerSmart.js:68-73 | the snapshot is not refreshed within a batch. A rule the snapshot holds is never applied. A rule it does not hold is applied as many times as it occurs in the batch, duplicates included |
| Firewall.SafeApplicationsAllAbsent | lib/iptablerSmart.js:68-73 | when the snapshot holds no rule of the batch, the checked batch sends the same commands as `applyRules` |
| Firewall.InSnapshot | lib/iptablerSmart.js:53-60 | no contract: the existence test of the applier against a given pair of snapshots, as a predicate on rules; SafeStepIff characterises it |
| Firewall.SafeStep | lib/iptablerSmart.js:62-65 | no contract: the commands one checked rule sends, its own application when the snapshot does not hold it and nothing otherwise; SafeStepIff and ListedRuleNotReapplied characterise it |
| Firewall.SafeApplications | lib/iptablerSmart.js:68-73 | no contract: the commands of a checked batch against one fixed snapshot, each rule's step in order; SafeApplicationsStep, SafeApplicationsMembers, SafeApplicationsCount and SafeApplicationsAllAbsent characterise it |
| RuleKey.Canonical | lib/iptablerSmart.js:49-51 | no contract: the compiled arguments after the first, joined with single spaces, and the empty string for an empty argument list; CanonicalTokens gives the arguments back and CanonicalIgnoresProgram shows the first is dropped |
| RuleKey.StripNat | lib/iptablerSmart.js:56 | no contract: the first `-t nat` replaced by nothing, then trimmed; RouteNatSplice characterises it |
| RuleKey.Route | lib/iptablerSmart.js:54-58 | no contract: the table and key a canonical string is looked up under; RouteBySelector, RouteNatSplice, RouteLeadingSelector and RouteCompiledNatRule characterise it |
| RuleKey.RuleExists | lib/iptablerSmart.js:53-60 | no contract: whether the routed key is found by array `indexOf` in the routed table's snapshot; RuleExistsIff and TablesAreSeparate characterise it |
| RuleKey.CanonicalTokens | lib/iptablerSmart.js:48-51 | the canonical string keeps every compiled argument after the first: splitting it on spaces gives them back when none holds a space |
| RuleKey.CanonicalIgnoresProgram | lib/iptablerSmart.js:49-51 | the canonical string does not depend on the first (dropped) argument |
| RuleKey.CanonicalNatPrefix | lib/iptablerSmart.js:48-51 | arguments `-t`, `nat`, ... after the program name give a canonical string that starts with the nat selector |
| RuleKey.RouteBySelector | lib/iptablerSmart.js:54-60 | a rule goes to the nat table exactly when `-t nat` occurs anywhere in its canonical string. A filter rule is looked up under its canonical string unchanged. A nat key is shorter by at least the selector, and neither starts nor ends with whitespace |
| RuleKey.RouteNatSplice | lib/iptablerSmart.js:54-57 | only the first `-t nat` is removed: the nat key is the trimmed text before and after that first occurrence, with later occurrences kept |
| RuleKey.RouteLeadingSelector | lib/iptablerSmart.js:54-57 | a canonical string that starts with `-t nat` is a nat rule keyed by the trimmed rest |
| RuleKey.RouteCompiledNatRule | lib/iptablerSmart.js:48-57 | a compiled rule whose arguments after the program name start with `-t nat` is looked up in the nat table under the remaining arguments joined with spaces |
| RuleKey.RuleExistsIff | lib/iptablerSmart.js:53-60 | a rule exists exactly when it is a nat rule whose key is an element of `allNatRules`, or a filter rule whose canonical string is an element of `allRules` |
| RuleKey.TablesAreSeparate | lib/iptablerSmart.js:54-60 | the existence of a nat rule does not depend on the filter snapshot, and vice versa |
| Text.Split | lib/iptablerSmart.js:39-40 | `split('\n')` gives at least one piece, and no piece contains the separator |
| Text.Join | lib/iptablerSmart.js:51 | no contract: `join(sep)`, the pieces with the separator between consecutive ones, `""` for none; JoinSplit and SplitJoin characterise it against Split |
| Text.JoinSplit | lib/iptablerSmart.js:39-40 | joining the split pieces with the separator gives the listing text back: blank lines are kept, and nothing is trimmed or merged |
| Text.SplitJoin | lib/iptablerSmart.js:39-40 | splitting a join of separator-free lines gives back the lines |
| Text.SplitWithoutSeparator | lib/iptablerSmart.js:39-40 | a separator-free text splits into itself alone |
| Text.SplitAfterSeparator | lib/iptablerSmart.js:39-40 | a separator-free prefix ending at a separator is the first piece, followed by the pieces of the rest |
| Text.IndexOfFrom | lib/iptablerSmart.js:54 | the string search from a position within the string answers -1 or a position where the pattern fits inside the string |
| Text.IndexOfFromFirst | lib/iptablerSmart.js:54 | the string search answers the first occurrence of the pattern, or -1 exactly when there is none |
| Text.IndexOf | lib/iptablerSmart.js:54 | no contract: `indexOf(pat)`, the search from position 0; IndexOfFromFirst characterises it |
| Text.Contains | lib/iptablerSmart.js:54 | no contract: `indexOf(pat) >= 0`; ContainsIff characterises it |
| Text.ContainsIff | lib/iptablerSmart.js:54 | `indexOf(p) >= 0` holds exactly when `p` occurs in the string |
| Text.ReplaceFirst | lib/iptablerSmart.js:56 | no contract: `replace(pat, rep)` with a string pattern, the first occurrence replaced and the text unchanged without one; ReplaceFirstSplice and ReplaceFirstAbsent characterise it |
| Text.ReplaceFirstSplice | lib/iptablerSmart.js:56 | `replace` with a string pattern replaces the first occurrence only |
| Text.ReplaceFirstAbsent | lib/iptablerSmart.js:56 | `replace` leaves a string without an occurrence unchanged |
| Text.TrimStart | lib/iptablerSmart.js:56 | no contract: the leading whitespace of `trim` removed; TrimStartSuffix and TrimStartPadded characterise it |
| Text.TrimEnd | lib/iptablerSmart.js:56 | no contract: the trailing whitespace of `trim` removed; TrimEndPrefix and TrimEndPadded characterise it |
| Text.Trim | lib/iptablerSmart.js:56 | no contract: `trim()`, both ends stripped of ECMAScript whitespace; TrimEnds, TrimPadded, TrimLeadingSpace and TrimIdempotent characterise it |
| Text.TrimStartSuffix | lib/iptablerSmart.js:56 | the start of `trim` keeps a suffix that does not start with whitespace and drops only whitespace |
| Text.TrimEndPrefix | lib/iptablerSmart.js:56 | the end of `trim` keeps a prefix that does not end with whitespace and drops only whitespace |
| Text.TrimEnds | lib/iptablerSmart.js:56 | the trimmed text is no longer than the text, and neither starts nor ends with whitespace |
| Text.TrimStartPadded | lib/iptablerSmart.js:56 | leading whitespace before a non-whitespace character is exactly what the start of `trim` removes |
| Text.TrimEndPadded | lib/iptablerSmart.js:56 | trailing whitespace after a non-whitespace character is exactly what the end of `trim` removes |
| Text.TrimPadded | lib/iptablerSmart.js:56 | `trim` of a whitespace prefix, a text with non-whitespace ends, and a whitespace suffix is that text |
| Text.TrimLeadingSpace | lib/iptablerSmart.js:56 | `trim` of one space in front of a text with non-whitespace ends is that text |
| Text.TrimIdempotent | lib/iptablerSmart.js:56 | trimming twice is trimming once |
| Text.ElementIndex | lib/iptablerSmart.js:57-59 | no contract: array `indexOf(x)` with strict equality, the first index holding `x` or -1; ElementIndexFirst characterises it |
| Text.ElementIndexFirst | lib/iptablerSmart.js:57-59 | array `indexOf` answers -1 exactly when the line is not an element, and otherwise the index of its first strictly equal element |

## Left out

- The `iptabler` compiler is not part of this model. This includes the option-to-flag ordering and the `_args.pop()` at lib/iptablerSmart.js:33-34 that shapes the listing commands. The compiler is the uninterpreted parameter `compile`. The listing commands are the constructors `ListRules(Filter)` and `ListRules(Nat)`.
- Process execution, `sudo` and the `exec` callbacks (lib/iptablerSmart.js:10-19, 77-81) are I/O. A listing is an input `Listing`, and an apply is an entry in the ghost log `commands`.
- Promise scheduling is not modelled: the methods run sequentially, and an apply command is taken to be sent when `applyRule` is called. Whether it has completed before the next command is sent is not modelled, because `exec` at lib/iptablerSmart.js:77 does not wait for its callback.
- Firewall.IptablerSmart.ApplyRule: an apply failure is not modelled, because the swapped callback arguments and the `throw` inside the callback never reject the awaited call. Every apply succeeds.
- Firewall.IptablerSmart.ApplyRuleSafely: `updateCurrent` is an explicit argument with no default of `true`. The two listings it receives are read only when it is set.
- Firewall.IptablerSmart.ApplyRuleSafely: the existence test is computed by the `RuleKey` functions, which model the slice, shift, join, indexOf, replace and trim steps. The model does not mirror those steps one statement at a time on local variables.
- Placeholder replacement maps are not modelled: the library's methods take no such parameter.
- JavaScript strings are UTF-16 code-unit sequences; here they are sequences of characters. The `replace` replacement is the empty string, so `$` patterns do not arise.
