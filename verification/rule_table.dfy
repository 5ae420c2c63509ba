/** The read-only rule table: per name part, an ordered list of whole-word
    exceptions and an ordered list of suffix rules. */
module RuleTable {

  /** Number of grammatical cases a rule carries an edit for. */
  const CaseCount: nat := 5

  /** A grammatical case, by its ordinal (the index into a rule's `mods`). */
  type Case = c: nat | c < CaseCount

  const Genitive: Case := 0
  const Dative: Case := 1
  const Accusative: Case := 2
  const Instrumental: Case := 3
  const Prepositional: Case := 4

  const Male: string := "male"
  const Female: string := "female"
  /** Default gender, and the wildcard value of a rule's `gender`. */
  const Androgynous: string := "androgynous"

  /** One rule: the gender it applies to, the words (exceptions) or endings
      (suffix rules) it tests for, and one edit string per case. The
      informational `tags` of the table are not part of the model. */
  datatype Rule = Rule(gender: string, test: seq<string>, mods: seq<string>)

  datatype RulesGroup = RulesGroup(exceptions: seq<Rule>, suffixes: seq<Rule>)

  datatype Rules = Rules(lastname: RulesGroup, firstname: RulesGroup, middlename: RulesGroup)

  /** Every rule has an edit for each case, so `mods[gCase]` is always defined. */
  predicate WellFormedRules(rules: seq<Rule>) {
    forall i | 0 <= i < |rules| :: |rules[i].mods| == CaseCount
  }

  predicate WellFormedGroup(group: RulesGroup) {
    WellFormedRules(group.exceptions) && WellFormedRules(group.suffixes)
  }

  predicate WellFormedTable(rules: Rules) {
    && WellFormedGroup(rules.lastname)
    && WellFormedGroup(rules.firstname)
    && WellFormedGroup(rules.middlename)
  }

  /** A rule is considered for a requested gender when its own gender equals
      it or is the wildcard. */
  predicate GenderApplies(ruleGender: string, gender: string) {
    gender == ruleGender || ruleGender == Androgynous
  }

  /** One (rule, test string) pair as a scan for one case sees it. */
  datatype Candidate = Candidate(gender: string, test: string, mod: string)

  /** The pairs of one rule, in the order of its `test` list. */
  function RuleCandidates(rule: Rule, gCase: Case): (cs: seq<Candidate>)
    requires |rule.mods| == CaseCount
    ensures |cs| == |rule.test|
    ensures forall j | 0 <= j < |cs| :: cs[j] == Candidate(rule.gender, rule.test[j], rule.mods[gCase])
  {
    seq(|rule.test|, j requires 0 <= j < |rule.test| => Candidate(rule.gender, rule.test[j], rule.mods[gCase]))
  }

  /** All pairs of a rule list, flattened in the order the nested scans
      visit them: rule by rule, and within a rule test by test. */
  function Candidates(rules: seq<Rule>, gCase: Case): seq<Candidate>
    requires WellFormedRules(rules)
  {
    if |rules| == 0 then []
    else RuleCandidates(rules[0], gCase) + Candidates(rules[1..], gCase)
  }
}
