/** The rule matcher: the exception pass, the suffix pass and `inflect`,
    which puts them together and handles hyphenated compound names. */
module Matcher {
  import opened Wrappers
  import opened Strings
  import opened RuleTable
  import opened Edits

  const Hyphen: char := '-'
  const Space: char := ' '

  // ---------------------------------------------------------------------
  // Exception pass

  /** A pair fires in the exception pass when its gender applies and its
      test string is the whole lowercased word. */
  predicate ExceptionHit(c: Candidate, lowerName: string, gender: string) {
    GenderApplies(c.gender, gender) && c.test == lowerName
  }

  /** `checkExcludes`: the edit of the first exception whose test list holds
      the lowercased word, applied to the word as given; "" when none does.
      `lower` stands for `strings.ToLower`. */
  function CheckExcludes(name: string, group: RulesGroup, gCase: Case, gender: string,
                         lower: string -> string): (r: Option<string>)
    requires WellFormedGroup(group)
    ensures (forall i | 0 <= i < |group.exceptions| :: lower(name) !in group.exceptions[i].test) ==> r == Some("")
    ensures r.Some? && Hyphen !in name ==> Hyphen !in r.value
  {
    ScanExceptions(name, lower(name), group.exceptions, gCase, gender)
  }

  function ScanExceptions(name: string, lowerName: string, rules: seq<Rule>, gCase: Case,
                          gender: string): (r: Option<string>)
    requires WellFormedRules(rules)
    ensures (forall i | 0 <= i < |rules| :: lowerName !in rules[i].test) ==> r == Some("")
    ensures r.Some? && Hyphen !in name ==> Hyphen !in r.value
  {
    if |rules| == 0 then Some("")
    else if GenderApplies(rules[0].gender, gender) && lowerName in rules[0].test then
      ApplyRule(rules[0].mods[gCase], name)
    else ScanExceptions(name, lowerName, rules[1..], gCase, gender)
  }

  lemma {:induction false} ScanExceptionsFirstHit(name: string, lowerName: string, rules: seq<Rule>,
                                                  gCase: Case, gender: string, i: nat)
    requires WellFormedRules(rules)
    requires i < |Candidates(rules, gCase)|
    requires ExceptionHit(Candidates(rules, gCase)[i], lowerName, gender)
    requires forall j | 0 <= j < i :: !ExceptionHit(Candidates(rules, gCase)[j], lowerName, gender)
    ensures ScanExceptions(name, lowerName, rules, gCase, gender)
            == ApplyRule(Candidates(rules, gCase)[i].mod, name)
    decreases |rules|
  {
    var cs := Candidates(rules, gCase);
    var head := RuleCandidates(rules[0], gCase);
    var tail := Candidates(rules[1..], gCase);
    assert cs == head + tail;
    if i < |head| {
      assert cs[i] == head[i];
      assert lowerName == rules[0].test[i];
    } else {
      forall j | 0 <= j < |head|
        ensures !ExceptionHit(head[j], lowerName, gender)
      {
        assert head[j] == cs[j];
      }
      forall j | 0 <= j < i - |head|
        ensures !ExceptionHit(tail[j], lowerName, gender)
      {
        assert tail[j] == cs[j + |head|];
      }
      assert tail[i - |head|] == cs[i];
      ScanExceptionsFirstHit(name, lowerName, rules[1..], gCase, gender, i - |head|);
    }
  }

  lemma {:induction false} ScanExceptionsNoHit(name: string, lowerName: string, rules: seq<Rule>,
                                               gCase: Case, gender: string)
    requires WellFormedRules(rules)
    requires forall j | 0 <= j < |Candidates(rules, gCase)| ::
               !ExceptionHit(Candidates(rules, gCase)[j], lowerName, gender)
    ensures ScanExceptions(name, lowerName, rules, gCase, gender) == Some("")
    decreases |rules|
  {
    if |rules| > 0 {
      var cs := Candidates(rules, gCase);
      var head := RuleCandidates(rules[0], gCase);
      var tail := Candidates(rules[1..], gCase);
      assert cs == head + tail;
      forall j | 0 <= j < |head|
        ensures !ExceptionHit(head[j], lowerName, gender)
      {
        assert head[j] == cs[j];
      }
      forall j | 0 <= j < |tail|
        ensures !ExceptionHit(tail[j], lowerName, gender)
      {
        assert tail[j] == cs[j + |head|];
      }
      ScanExceptionsNoHit(name, lowerName, rules[1..], gCase, gender);
    }
  }

  /** The first exception pair, in table order, whose gender applies and whose
      test equals the lowercased word decides the result: its edit for the
      case, applied to the original word. Later exceptions are not consulted. */
  lemma CheckExcludesFirstMatch(name: string, group: RulesGroup, gCase: Case, gender: string,
                                lower: string -> string, i: nat)
    requires WellFormedGroup(group)
    requires i < |Candidates(group.exceptions, gCase)|
    requires ExceptionHit(Candidates(group.exceptions, gCase)[i], lower(name), gender)
    requires forall j | 0 <= j < i :: !ExceptionHit(Candidates(group.exceptions, gCase)[j], lower(name), gender)
    ensures CheckExcludes(name, group, gCase, gender, lower)
            == ApplyRule(Candidates(group.exceptions, gCase)[i].mod, name)
  {
    ScanExceptionsFirstHit(name, lower(name), group.exceptions, gCase, gender, i);
  }

  /** With no exception pair for the lowercased word, the pass answers "". */
  lemma CheckExcludesNoMatch(name: string, group: RulesGroup, gCase: Case, gender: string,
                             lower: string -> string)
    requires WellFormedGroup(group)
    requires forall j | 0 <= j < |Candidates(group.exceptions, gCase)| ::
               !ExceptionHit(Candidates(group.exceptions, gCase)[j], lower(name), gender)
    ensures CheckExcludes(name, group, gCase, gender, lower) == Some("")
  {
    ScanExceptionsNoHit(name, lower(name), group.exceptions, gCase, gender);
  }

  // ---------------------------------------------------------------------
  // Suffix pass

  /** `test` is a proper ending of `name`: strictly shorter, and equal to the
      tail of that length. A test as long as the word never qualifies. */
  predicate StrictSuffix(test: string, name: string) {
    |test| < |name| && name[|name| - |test|..] == test
  }

  /** A pair fires in the suffix pass when its gender applies, its test is a
      proper ending of the word, and its edit is not the no-change entry. */
  predicate SuffixHit(c: Candidate, name: string, gender: string) {
    GenderApplies(c.gender, gender) && StrictSuffix(c.test, name) && c.mod != NoChange
  }

  /** The inner loop of `findRules` over one rule's tests: a matching test
      whose edit is "." is skipped (`continue`), any other match stops the scan. */
  function ScanTests(name: string, tests: seq<string>, mod: string): (hit: bool)
    ensures hit <==> mod != NoChange && exists j | 0 <= j < |tests| :: StrictSuffix(tests[j], name)
  {
    if |tests| == 0 then false
    else if StrictSuffix(tests[0], name) && mod != NoChange then true
    else
      assert forall j | 1 <= j < |tests| :: tests[j] == tests[1..][j - 1];
      ScanTests(name, tests[1..], mod)
  }

  /** `findRules`: the edit of the first suffix pair that fires, applied to
      the word; the word itself when none does. */
  function FindRules(name: string, group: RulesGroup, gCase: Case, gender: string): (r: Option<string>)
    requires WellFormedGroup(group)
    ensures |name| == 0 ==> r == Some(name)
    ensures r.Some? && Hyphen !in name ==> Hyphen !in r.value
  {
    ScanSuffixes(name, group.suffixes, gCase, gender)
  }

  function ScanSuffixes(name: string, rules: seq<Rule>, gCase: Case, gender: string): (r: Option<string>)
    requires WellFormedRules(rules)
    ensures |name| == 0 ==> r == Some(name)
    ensures r.Some? && Hyphen !in name ==> Hyphen !in r.value
  {
    if |rules| == 0 then Some(name)
    else if GenderApplies(rules[0].gender, gender) && ScanTests(name, rules[0].test, rules[0].mods[gCase]) then
      ApplyRule(rules[0].mods[gCase], name)
    else ScanSuffixes(name, rules[1..], gCase, gender)
  }

  lemma {:induction false} ScanSuffixesFirstHit(name: string, rules: seq<Rule>, gCase: Case,
                                                gender: string, i: nat)
    requires WellFormedRules(rules)
    requires i < |Candidates(rules, gCase)|
    requires SuffixHit(Candidates(rules, gCase)[i], name, gender)
    requires forall j | 0 <= j < i :: !SuffixHit(Candidates(rules, gCase)[j], name, gender)
    ensures ScanSuffixes(name, rules, gCase, gender) == ApplyRule(Candidates(rules, gCase)[i].mod, name)
    decreases |rules|
  {
    var cs := Candidates(rules, gCase);
    var head := RuleCandidates(rules[0], gCase);
    var tail := Candidates(rules[1..], gCase);
    var mod := rules[0].mods[gCase];
    assert cs == head + tail;
    if i < |head| {
      assert cs[i] == head[i];
      assert StrictSuffix(rules[0].test[i], name);
    } else {
      forall j | 0 <= j < |head|
        ensures !SuffixHit(head[j], name, gender)
      {
        assert head[j] == cs[j];
      }
      forall j | 0 <= j < i - |head|
        ensures !SuffixHit(tail[j], name, gender)
      {
        assert tail[j] == cs[j + |head|];
      }
      assert tail[i - |head|] == cs[i];
      ScanSuffixesFirstHit(name, rules[1..], gCase, gender, i - |head|);
    }
  }

  lemma {:induction false} ScanSuffixesNoHit(name: string, rules: seq<Rule>, gCase: Case, gender: string)
    requires WellFormedRules(rules)
    requires forall j | 0 <= j < |Candidates(rules, gCase)| :: !SuffixHit(Candidates(rules, gCase)[j], name, gender)
    ensures ScanSuffixes(name, rules, gCase, gender) == Some(name)
    decreases |rules|
  {
    if |rules| > 0 {
      var cs := Candidates(rules, gCase);
      var head := RuleCandidates(rules[0], gCase);
      var tail := Candidates(rules[1..], gCase);
      assert cs == head + tail;
      forall j | 0 <= j < |head|
        ensures !SuffixHit(head[j], name, gender)
      {
        assert head[j] == cs[j];
      }
      forall j | 0 <= j < |tail|
        ensures !SuffixHit(tail[j], name, gender)
      {
        assert tail[j] == cs[j + |head|];
      }
      ScanSuffixesNoHit(name, rules[1..], gCase, gender);
    }
  }

  /** First match wins: the first suffix pair in table order that fires
      decides the result. Pairs whose edit is "." never fire, so they pass the
      word on to later rules instead of freezing it. */
  lemma FindRulesFirstMatch(name: string, group: RulesGroup, gCase: Case, gender: string, i: nat)
    requires WellFormedGroup(group)
    requires i < |Candidates(group.suffixes, gCase)|
    requires SuffixHit(Candidates(group.suffixes, gCase)[i], name, gender)
    requires forall j | 0 <= j < i :: !SuffixHit(Candidates(group.suffixes, gCase)[j], name, gender)
    ensures FindRules(name, group, gCase, gender) == ApplyRule(Candidates(group.suffixes, gCase)[i].mod, name)
  {
    ScanSuffixesFirstHit(name, group.suffixes, gCase, gender, i);
  }

  /** Identity: when no suffix pair fires, the word comes back unchanged. */
  lemma FindRulesNoMatch(name: string, group: RulesGroup, gCase: Case, gender: string)
    requires WellFormedGroup(group)
    requires forall j | 0 <= j < |Candidates(group.suffixes, gCase)| ::
               !SuffixHit(Candidates(group.suffixes, gCase)[j], name, gender)
    ensures FindRules(name, group, gCase, gender) == Some(name)
  {
    ScanSuffixesNoHit(name, group.suffixes, gCase, gender);
  }

  /** A suffix rule whose edit for the case is "." is passed over wherever
      it stands: the scan behaves as if the rule were not in the table. */
  lemma {:induction false} ScanSuffixesSkipsNoChange(name: string, rules: seq<Rule>, gCase: Case,
                                                     gender: string, k: nat)
    requires WellFormedRules(rules)
    requires k < |rules| && rules[k].mods[gCase] == NoChange
    ensures WellFormedRules(rules[..k] + rules[k + 1..])
    ensures ScanSuffixes(name, rules, gCase, gender)
            == ScanSuffixes(name, rules[..k] + rules[k + 1..], gCase, gender)
    decreases k
  {
    var rest := rules[..k] + rules[k + 1..];
    assert forall i | 0 <= i < |rest| :: rest[i] == (if i < k then rules[i] else rules[i + 1]);
    if k == 0 {
      assert rest == rules[1..];
    } else {
      var tail := rules[1..];
      assert rest[0] == rules[0];
      assert rest[1..] == tail[..k - 1] + tail[k..];
      ScanSuffixesSkipsNoChange(name, tail, gCase, gender, k - 1);
    }
  }

  lemma FindRulesSkipsNoChange(name: string, group: RulesGroup, gCase: Case, gender: string, k: nat)
    requires WellFormedGroup(group)
    requires k < |group.suffixes| && group.suffixes[k].mods[gCase] == NoChange
    ensures WellFormedGroup(group.(suffixes := group.suffixes[..k] + group.suffixes[k + 1..]))
    ensures FindRules(name, group, gCase, gender)
            == FindRules(name, group.(suffixes := group.suffixes[..k] + group.suffixes[k + 1..]), gCase, gender)
  {
    ScanSuffixesSkipsNoChange(name, group.suffixes, gCase, gender, k);
  }

  // ---------------------------------------------------------------------
  // inflect

  /** The suffix pass applied to every part in turn; a panic in any part
      is a panic of the whole. */
  function FindRulesEach(parts: seq<string>, group: RulesGroup, gCase: Case, gender: string): (r: Option<seq<string>>)
    requires WellFormedGroup(group)
    ensures r.Some? <==> forall i | 0 <= i < |parts| :: FindRules(parts[i], group, gCase, gender).Some?
    ensures r.Some? ==> |r.value| == |parts|
    ensures r.Some? ==> forall i | 0 <= i < |parts| :: r.value[i] == FindRules(parts[i], group, gCase, gender).value
  {
    if |parts| == 0 then Some([])
    else
      match FindRules(parts[0], group, gCase, gender)
      case None => None
      case Some(first) =>
        assert forall i | 1 <= i < |parts| :: parts[i] == parts[1..][i - 1];
        match FindRulesEach(parts[1..], group, gCase, gender)
        case None => None
        case Some(rest) => Some([first] + rest)
  }

  /** `inflect`: a non-empty exception result wins outright; otherwise the
      space-trimmed word is split on hyphens and every part goes through the
      suffix pass independently. */
  function Inflect(value: string, group: RulesGroup, gCase: Case, gender: string,
                   lower: string -> string): (r: Option<string>)
    requires WellFormedGroup(group)
    ensures CheckExcludes(value, group, gCase, gender, lower).None? ==> r.None?
    ensures r.Some? && Hyphen !in value ==> Hyphen !in r.value
    ensures Hyphen !in value && (forall i | 0 <= i < |group.exceptions| :: lower(value) !in group.exceptions[i].test)
            ==> r == FindRules(Trim(value, Space), group, gCase, gender)
  {
    TrimKeepsAbsent(value, Space, Hyphen);
    CountZero(Trim(value, Space), Hyphen);
    match CheckExcludes(value, group, gCase, gender, lower)
    case None => None
    case Some(excluded) =>
      if excluded != "" then Some(excluded)
      else
        var trimmed := Trim(value, Space);
        var parts := Split(trimmed, Hyphen);
        if |parts| > 1 then
          match FindRulesEach(parts, group, gCase, gender)
          case None => None
          case Some(inflected) => Some(Join(inflected, Hyphen))
        else FindRules(trimmed, group, gCase, gender)
  }

  /** Precedence: when the first matching exception yields a non-empty word,
      that word is the result, whatever the suffix rules say. */
  lemma InflectExceptionWins(value: string, group: RulesGroup, gCase: Case, gender: string,
                             lower: string -> string, i: nat)
    requires WellFormedGroup(group)
    requires i < |Candidates(group.exceptions, gCase)|
    requires ExceptionHit(Candidates(group.exceptions, gCase)[i], lower(value), gender)
    requires forall j | 0 <= j < i :: !ExceptionHit(Candidates(group.exceptions, gCase)[j], lower(value), gender)
    requires ApplyRule(Candidates(group.exceptions, gCase)[i].mod, value) != Some("")
    ensures Inflect(value, group, gCase, gender, lower) == ApplyRule(Candidates(group.exceptions, gCase)[i].mod, value)
  {
    CheckExcludesFirstMatch(value, group, gCase, gender, lower, i);
  }

  /** When the exception pass answers "" (no match, or a match whose edit
      empties the word), `inflect` panics iff the suffix pass panics on some
      hyphen-separated part of the trimmed word. */
  lemma InflectSuffixPassSucceeds(value: string, group: RulesGroup, gCase: Case, gender: string,
                                  lower: string -> string)
    requires WellFormedGroup(group)
    requires CheckExcludes(value, group, gCase, gender, lower) == Some("")
    ensures var parts := Split(Trim(value, Space), Hyphen);
            Inflect(value, group, gCase, gender, lower).Some?
            <==> forall i | 0 <= i < |parts| :: FindRules(parts[i], group, gCase, gender).Some?
  {
    InflectSuffixPassCases(value, group, gCase, gender, lower);
  }

  /** Hyphen compositionality: when the exception pass answers "", the
      result split on hyphens is exactly the suffix pass applied to each
      hyphen-separated part of the trimmed word (`FindRulesEach` states the
      per-part meaning). A word without a hyphen is one part. */
  lemma InflectSuffixPass(value: string, group: RulesGroup, gCase: Case, gender: string,
                          lower: string -> string)
    requires WellFormedGroup(group)
    requires CheckExcludes(value, group, gCase, gender, lower) == Some("")
    requires Inflect(value, group, gCase, gender, lower).Some?
    ensures FindRulesEach(Split(Trim(value, Space), Hyphen), group, gCase, gender)
            == Some(Split(Inflect(value, group, gCase, gender, lower).value, Hyphen))
  {
    InflectSuffixPassCases(value, group, gCase, gender, lower);
  }

  /** The suffix pass keeps the number of hyphens of the trimmed word. */
  lemma InflectPreservesHyphens(value: string, group: RulesGroup, gCase: Case, gender: string,
                                lower: string -> string)
    requires WellFormedGroup(group)
    requires CheckExcludes(value, group, gCase, gender, lower) == Some("")
    requires Inflect(value, group, gCase, gender, lower).Some?
    ensures Count(Inflect(value, group, gCase, gender, lower).value, Hyphen) == Count(Trim(value, Space), Hyphen)
  {
    InflectSuffixPassCases(value, group, gCase, gender, lower);
  }

  /** Both results above, from the case split on the number of parts. */
  lemma InflectSuffixPassCases(value: string, group: RulesGroup, gCase: Case, gender: string,
                               lower: string -> string)
    requires WellFormedGroup(group)
    requires CheckExcludes(value, group, gCase, gender, lower) == Some("")
    ensures var parts := Split(Trim(value, Space), Hyphen);
            var each := FindRulesEach(parts, group, gCase, gender);
            && (Inflect(value, group, gCase, gender, lower).Some? <==> each.Some?)
            && (each.Some? ==> Split(Inflect(value, group, gCase, gender, lower).value, Hyphen) == each.value)
  {
    var trimmed := Trim(value, Space);
    var parts := Split(trimmed, Hyphen);
    if |parts| > 1 {
      InflectSeveralParts(value, group, gCase, gender, lower);
    } else {
      InflectOnePart(value, group, gCase, gender, lower);
      assert parts[0] == trimmed;
    }
  }

  lemma InflectSeveralParts(value: string, group: RulesGroup, gCase: Case, gender: string,
                            lower: string -> string)
    requires WellFormedGroup(group)
    requires CheckExcludes(value, group, gCase, gender, lower) == Some("")
    requires |Split(Trim(value, Space), Hyphen)| > 1
    ensures var parts := Split(Trim(value, Space), Hyphen);
            var each := FindRulesEach(parts, group, gCase, gender);
            && (each.None? ==> Inflect(value, group, gCase, gender, lower).None?)
            && (each.Some? ==> Inflect(value, group, gCase, gender, lower) == Some(Join(each.value, Hyphen))
                               && Split(Join(each.value, Hyphen), Hyphen) == each.value)
  {
    var parts := Split(Trim(value, Space), Hyphen);
    var each := FindRulesEach(parts, group, gCase, gender);
    SplitPieces(Trim(value, Space), Hyphen);
    if each.Some? {
      forall i | 0 <= i < |each.value|
        ensures Hyphen !in each.value[i]
      {
        assert Hyphen !in parts[i];
      }
      SplitJoin(each.value, Hyphen);
    }
  }

  lemma InflectOnePart(value: string, group: RulesGroup, gCase: Case, gender: string,
                       lower: string -> string)
    requires WellFormedGroup(group)
    requires CheckExcludes(value, group, gCase, gender, lower) == Some("")
    requires |Split(Trim(value, Space), Hyphen)| <= 1
    ensures var trimmed := Trim(value, Space);
            && Split(trimmed, Hyphen) == [trimmed]
            && Inflect(value, group, gCase, gender, lower) == FindRules(trimmed, group, gCase, gender)
            && (FindRules(trimmed, group, gCase, gender).Some? ==>
                  Split(FindRules(trimmed, group, gCase, gender).value, Hyphen)
                  == [FindRules(trimmed, group, gCase, gender).value])
  {
    var trimmed := Trim(value, Space);
    CountZero(trimmed, Hyphen);
    SplitNoSeparator(trimmed, Hyphen);
    var r := FindRules(trimmed, group, gCase, gender);
    if r.Some? {
      SplitNoSeparator(r.value, Hyphen);
    }
  }
}
