/** The public operations: per-part inflection, gender inference from the
    patronymic, and the full-name orchestrators `InfFio` and `InfFi`. */
module Petrovich {
  import opened Wrappers
  import opened Strings
  import opened RuleTable
  import opened Edits
  import opened Matcher

  /** The error `InfFio` returns when the input is not three words. */
  const FioFormatError: string := "Error format of fio [Lastname FirstName MiddleName]"

  /** What Go's `fmt` prints in place of a verb that has no operand. */
  const MissingOperand: string := "%!s(MISSING)"

  // ---------------------------------------------------------------------
  // Per-part inflection

  /** `InfFirstname`: a given name, with the given-name rules. */
  function InfFirstname(rules: Rules, value: string, gCase: Case, gender: string,
                        lower: string -> string): (r: Option<string>)
    requires WellFormedTable(rules)
    ensures r.Some? && Hyphen !in value ==> Hyphen !in r.value
    ensures Hyphen !in value && (forall i | 0 <= i < |rules.firstname.exceptions| :: lower(value) !in rules.firstname.exceptions[i].test)
            ==> r == FindRules(Trim(value, Space), rules.firstname, gCase, gender)
  {
    Inflect(value, rules.firstname, gCase, gender, lower)
  }

  /** `InfLastname`: a surname, with the surname rules. */
  function InfLastname(rules: Rules, value: string, gCase: Case, gender: string,
                       lower: string -> string): (r: Option<string>)
    requires WellFormedTable(rules)
    ensures r.Some? && Hyphen !in value ==> Hyphen !in r.value
    ensures Hyphen !in value && (forall i | 0 <= i < |rules.lastname.exceptions| :: lower(value) !in rules.lastname.exceptions[i].test)
            ==> r == FindRules(Trim(value, Space), rules.lastname, gCase, gender)
  {
    Inflect(value, rules.lastname, gCase, gender, lower)
  }

  /** `InfMiddlename`: a patronymic, with the patronymic rules. */
  function InfMiddlename(rules: Rules, value: string, gCase: Case, gender: string,
                         lower: string -> string): (r: Option<string>)
    requires WellFormedTable(rules)
    ensures r.Some? && Hyphen !in value ==> Hyphen !in r.value
    ensures Hyphen !in value && (forall i | 0 <= i < |rules.middlename.exceptions| :: lower(value) !in rules.middlename.exceptions[i].test)
            ==> r == FindRules(Trim(value, Space), rules.middlename, gCase, gender)
  {
    Inflect(value, rules.middlename, gCase, gender, lower)
  }

  // ---------------------------------------------------------------------
  // Gender inference

  /** `detectGender`: a patronymic ending in "ич" is male, one ending in "на"
      female, anything else androgynous. */
  function DetectGender(middlename: string): (g: string)
    ensures var n := |middlename|;
            g == Male <==> n >= 2 && middlename[n - 2] == 'и' && middlename[n - 1] == 'ч'
    ensures var n := |middlename|;
            g == Female <==> n >= 2 && middlename[n - 2] == 'н' && middlename[n - 1] == 'а'
    ensures g == Male || g == Female || g == Androgynous
  {
    var n := |middlename|;
    if n >= 2 then
      assert middlename[n - 2..] == [middlename[n - 2], middlename[n - 1]];
      if HasSuffix(middlename, "ич") then Male
      else if HasSuffix(middlename, "на") then Female
      else Androgynous
    else Androgynous
  }

  // ---------------------------------------------------------------------
  // Orchestrators

  /** `deleteEmpty`: the non-empty words, in their original order. */
  function DeleteEmpty(src: seq<string>): (dst: seq<string>)
    ensures |dst| <= |src|
    ensures forall i | 0 <= i < |dst| :: dst[i] != ""
    ensures forall w | w != "" :: multiset(dst)[w] == multiset(src)[w]
    ensures multiset(dst)[""] == 0
  {
    if |src| == 0 then []
    else
      assert src == [src[0]] + src[1..];
      var rest := DeleteEmpty(src[1..]);
      if src[0] == "" then rest else [src[0]] + rest
  }

  /** Deleting distributes over concatenation, so the surviving words keep
      their relative order. */
  lemma {:induction false} DeleteEmptyAppend(a: seq<string>, b: seq<string>)
    ensures DeleteEmpty(a + b) == DeleteEmpty(a) + DeleteEmpty(b)
    decreases |a|
  {
    if |a| == 0 {
      assert a + b == b;
    } else {
      assert (a + b)[1..] == a[1..] + b;
      DeleteEmptyAppend(a[1..], b);
    }
  }

  /** The space-separated words of `text` after trimming, empty ones included. */
  function Words(text: string): seq<string> {
    Split(Trim(text, Space), Space)
  }

  /** `InfFio`: declines "Surname Given Patronymic". Anything but exactly three
      words (empty words count) is a format error. The gender comes from the
      patronymic. The short form is the declined surname followed by the
      first letters of the other two words, each with a dot. An empty second
      or third word has no first letter: the source slices `[]rune(w)[:1]`,
      whose outcome on an empty word rests on the capacity the compiler gives
      the conversion, so the model leaves that case without a result (`None`). */
  function InfFio(rules: Rules, fio: string, gCase: Case, short: bool,
                  lower: string -> string): (r: Option<Result<string>>)
    requires WellFormedTable(rules)
    ensures r == Some(Failure(FioFormatError)) <==> |Words(fio)| != 3
    ensures r.Some? && r.value.Failure? ==> r.value.error == FioFormatError
    ensures short && |Words(fio)| == 3 && (Words(fio)[1] == "" || Words(fio)[2] == "") ==> r == None
    ensures short && |Words(fio)| == 3 && Words(fio)[1] != "" && Words(fio)[2] != "" ==>
              var w := Words(fio);
              var lastname := InfLastname(rules, w[0], gCase, DetectGender(w[2]), lower);
              && (r.Some? <==> lastname.Some?)
              && (r.Some? ==> && r.value.Success?
                              && |r.value.value| == |lastname.value| + 5
                              && r.value.value[..|lastname.value|] == lastname.value
                              && r.value.value[|lastname.value|..] == [Space, w[1][0], '.', w[2][0], '.'])
  {
    var words := Words(fio);
    if |words| != 3 then Some(Failure(FioFormatError))
    else
      var gender := DetectGender(words[2]);
      match InfLastname(rules, words[0], gCase, gender, lower)
      case None => None
      case Some(lastname) =>
        if short then
          // no first letter to take: no result in the model
          if words[1] == "" || words[2] == "" then None
          else Some(Success(lastname + " " + [words[1][0]] + "." + [words[2][0]] + "."))
        else
          match (InfFirstname(rules, words[1], gCase, gender, lower),
                 InfMiddlename(rules, words[2], gCase, gender, lower))
          case (Some(firstname), Some(middlename)) =>
            Some(Success(Join([lastname, firstname, middlename], Space)))
          case _ => None
  }

  /** Full form: the three words, each declined with its own rules and the
      gender of the patronymic, joined by single spaces. When no declined
      word holds a space, splitting the result on spaces gives them back. */
  lemma InfFioFullForm(rules: Rules, fio: string, gCase: Case, lower: string -> string)
    requires WellFormedTable(rules)
    requires |Words(fio)| == 3
    requires var w := Words(fio);
             var g := DetectGender(w[2]);
             && InfLastname(rules, w[0], gCase, g, lower).Some?
             && InfFirstname(rules, w[1], gCase, g, lower).Some?
             && InfMiddlename(rules, w[2], gCase, g, lower).Some?
    ensures var w := Words(fio);
            var g := DetectGender(w[2]);
            InfFio(rules, fio, gCase, false, lower)
            == Some(Success(InfLastname(rules, w[0], gCase, g, lower).value + [Space]
                            + InfFirstname(rules, w[1], gCase, g, lower).value + [Space]
                            + InfMiddlename(rules, w[2], gCase, g, lower).value))
    ensures var w := Words(fio);
            var g := DetectGender(w[2]);
            var parts := [InfLastname(rules, w[0], gCase, g, lower).value,
                          InfFirstname(rules, w[1], gCase, g, lower).value,
                          InfMiddlename(rules, w[2], gCase, g, lower).value];
            (Space !in parts[0] && Space !in parts[1] && Space !in parts[2]) ==>
              Split(InfFio(rules, fio, gCase, false, lower).value.value, Space) == parts
  {
    var w := Words(fio);
    var g := DetectGender(w[2]);
    var parts := [InfLastname(rules, w[0], gCase, g, lower).value,
                  InfFirstname(rules, w[1], gCase, g, lower).value,
                  InfMiddlename(rules, w[2], gCase, g, lower).value];
    assert InfFio(rules, fio, gCase, false, lower) == Some(Success(Join(parts, Space)));
    JoinThree(parts[0], parts[1], parts[2], Space);
    if Space !in parts[0] && Space !in parts[1] && Space !in parts[2] {
      SplitJoin(parts, Space);
    }
  }

  /** The short form does not depend on the given-name or patronymic rules. */
  lemma InfFioShortIgnoresOtherGroups(rules: Rules, fio: string, gCase: Case, lower: string -> string,
                                      firstname: RulesGroup, middlename: RulesGroup)
    requires WellFormedTable(rules)
    requires WellFormedGroup(firstname) && WellFormedGroup(middlename)
    ensures InfFio(rules, fio, gCase, true, lower)
            == InfFio(rules.(firstname := firstname, middlename := middlename), fio, gCase, true, lower)
  {
  }

  /** The words of two space-free words separated by a run of `q` spaces:
      the run leaves `q - 1` empty words between them. */
  lemma {:induction false} WordsAroundRun(a: string, q: nat, b: string)
    requires a != "" && b != "" && Space !in a && Space !in b && q >= 1
    ensures Split(a + Repeat(Space, q) + b, Space) == [a] + seq(q - 1, _ => "") + [b]
  {
    assert a + Repeat(Space, q) + b == a + [Space] + (Repeat(Space, q - 1) + b);
    SplitAfterPiece(a, Repeat(Space, q - 1) + b, Space);
    SplitAfterRun(q - 1, b, Space);
  }

  /** A doubled space between surname and given name leaves an empty middle
      word, which passes the three-word check; the short form then has no
      first letter to take from it and gives no result. */
  lemma InfFioShortOnDoubledSpace(rules: Rules, a: string, b: string, gCase: Case,
                                  lower: string -> string)
    requires WellFormedTable(rules)
    requires a != "" && b != "" && Space !in a && Space !in b
    ensures Words(a + Repeat(Space, 2) + b) == [a, "", b]
    ensures InfFio(rules, a + Repeat(Space, 2) + b, gCase, true, lower) == None
  {
    DoubledSpaceWords(a, b);
  }

  lemma DoubledSpaceWords(a: string, b: string)
    requires a != "" && b != "" && Space !in a && Space !in b
    ensures Words(a + Repeat(Space, 2) + b) == [a, "", b]
  {
    var text := a + Repeat(Space, 2) + b;
    assert text[0] == a[0] && text[|text| - 1] == b[|b| - 1];
    TrimUnpadded(text, Space);
    WordsAroundRun(a, 2, b);
    assert seq(1, _ => "") == [""];
  }

  /** The short form of a pair: surname, a space, the initial and a dot. */
  function ShortFi(lastname: string, firstname: string): (s: string)
    requires firstname != ""
  {
    lastname + " " + [firstname[0]] + "."
  }

  /** The short form of a pair as the format string with three verbs and two
      operands renders it: the third verb prints as `%!s(MISSING)`. */
  function ShortFiAsWritten(lastname: string, firstname: string): (s: string)
    requires firstname != ""
    ensures |s| == |ShortFi(lastname, firstname)| + |MissingOperand| + 1
    ensures s != ShortFi(lastname, firstname)
    ensures s[..|ShortFi(lastname, firstname)|] == ShortFi(lastname, firstname)
    ensures s[|ShortFi(lastname, firstname)|..] == MissingOperand + "."
  {
    lastname + " " + [firstname[0]] + "." + MissingOperand + "."
  }

  /** A concrete instance: surname "Смирнов" and given name "Иван". */
  lemma ShortFiAsWrittenExample()
    ensures ShortFiAsWritten("Смирнов", "Иван") == "Смирнов И.%!s(MISSING)."
    ensures ShortFi("Смирнов", "Иван") == "Смирнов И."
  {
  }

  /** `InfFi`: declines "Surname Given" with androgynous gender. Repeated
      spaces are tolerated; anything but two non-empty words yields "". */
  function InfFi(rules: Rules, fi: string, gCase: Case, short: bool,
                 lower: string -> string): (r: Option<string>)
    requires WellFormedTable(rules)
    ensures r == Some("") <==> |DeleteEmpty(Words(fi))| != 2
  {
    var words := DeleteEmpty(Words(fi));
    if |words| != 2 then Some("")
    else
      match InfLastname(rules, words[0], gCase, Androgynous, lower)
      case None => None
      case Some(lastname) =>
        if short then Some(ShortFi(lastname, words[1]))
        else
          match InfFirstname(rules, words[1], gCase, Androgynous, lower)
          case None => None
          case Some(firstname) =>
            assert Join([lastname, firstname], Space) == lastname + [Space] + firstname;
            Some(Join([lastname, firstname], Space))
  }

  /** Short form of a pair: the surname declined with androgynous gender,
      a space, the given name's undeclined initial and a dot. */
  lemma InfFiShortForm(rules: Rules, fi: string, gCase: Case, lower: string -> string)
    requires WellFormedTable(rules)
    requires |DeleteEmpty(Words(fi))| == 2
    requires InfLastname(rules, DeleteEmpty(Words(fi))[0], gCase, Androgynous, lower).Some?
    ensures var w := DeleteEmpty(Words(fi));
            var lastname := InfLastname(rules, w[0], gCase, Androgynous, lower).value;
            InfFi(rules, fi, gCase, true, lower) == Some(lastname + [Space, w[1][0], '.'])
  {
    var w := DeleteEmpty(Words(fi));
    var lastname := InfLastname(rules, w[0], gCase, Androgynous, lower).value;
    assert w[1] != "";
    assert InfFi(rules, fi, gCase, true, lower) == Some(ShortFi(lastname, w[1]));
    assert ShortFi(lastname, w[1]) == lastname + [Space, w[1][0], '.'];
  }

  /** Full form of a pair: the two words, each declined with its own rules
      and androgynous gender, joined by one space. */
  lemma InfFiFullForm(rules: Rules, fi: string, gCase: Case, lower: string -> string)
    requires WellFormedTable(rules)
    requires |DeleteEmpty(Words(fi))| == 2
    requires var w := DeleteEmpty(Words(fi));
             && InfLastname(rules, w[0], gCase, Androgynous, lower).Some?
             && InfFirstname(rules, w[1], gCase, Androgynous, lower).Some?
    ensures var w := DeleteEmpty(Words(fi));
            var r := InfFi(rules, fi, gCase, false, lower);
            && r.Some?
            && r.value == InfLastname(rules, w[0], gCase, Androgynous, lower).value + [Space]
                          + InfFirstname(rules, w[1], gCase, Androgynous, lower).value
  {
    var w := DeleteEmpty(Words(fi));
    var lastname := InfLastname(rules, w[0], gCase, Androgynous, lower).value;
    var firstname := InfFirstname(rules, w[1], gCase, Androgynous, lower).value;
    assert InfFi(rules, fi, gCase, false, lower) == Some(Join([lastname, firstname], Space));
  }

  /** When neither declined word of the full form holds a space, splitting
      the result on spaces gives the two declined words back. */
  lemma InfFiFullFormWords(rules: Rules, fi: string, gCase: Case, lower: string -> string)
    requires WellFormedTable(rules)
    requires |DeleteEmpty(Words(fi))| == 2
    requires var w := DeleteEmpty(Words(fi));
             && InfLastname(rules, w[0], gCase, Androgynous, lower).Some?
             && InfFirstname(rules, w[1], gCase, Androgynous, lower).Some?
             && Space !in InfLastname(rules, w[0], gCase, Androgynous, lower).value
             && Space !in InfFirstname(rules, w[1], gCase, Androgynous, lower).value
    ensures var w := DeleteEmpty(Words(fi));
            var r := InfFi(rules, fi, gCase, false, lower);
            && r.Some?
            && Split(r.value, Space) == [InfLastname(rules, w[0], gCase, Androgynous, lower).value,
                                         InfFirstname(rules, w[1], gCase, Androgynous, lower).value]
  {
    var w := DeleteEmpty(Words(fi));
    var lastname := InfLastname(rules, w[0], gCase, Androgynous, lower).value;
    var firstname := InfFirstname(rules, w[1], gCase, Androgynous, lower).value;
    assert InfFi(rules, fi, gCase, false, lower) == Some(Join([lastname, firstname], Space));
    SplitJoin([lastname, firstname], Space);
  }

  /** Irregular spacing collapses: `p` leading, `q >= 1` separating and `t`
      trailing spaces around two words still give exactly those two words. */
  lemma PairSpacingCollapses(a: string, b: string, p: nat, q: nat, t: nat)
    requires a != "" && b != "" && Space !in a && Space !in b && q >= 1
    ensures DeleteEmpty(Words(Repeat(Space, p) + a + Repeat(Space, q) + b + Repeat(Space, t))) == [a, b]
  {
    PaddedWords(a, b, p, q, t);
    DropEmptyRun(a, q - 1, b);
  }

  lemma PaddedWords(a: string, b: string, p: nat, q: nat, t: nat)
    requires a != "" && b != "" && Space !in a && Space !in b && q >= 1
    ensures Words(Repeat(Space, p) + a + Repeat(Space, q) + b + Repeat(Space, t))
            == [a] + seq(q - 1, _ => "") + [b]
  {
    var x := a + Repeat(Space, q) + b;
    assert Repeat(Space, p) + a + Repeat(Space, q) + b + Repeat(Space, t) == Repeat(Space, p) + x + Repeat(Space, t);
    assert x[0] == a[0] && x[|x| - 1] == b[|b| - 1];
    TrimPadding(p, x, t, Space);
    WordsAroundRun(a, q, b);
  }

  lemma DropEmptyRun(a: string, k: nat, b: string)
    requires a != "" && b != ""
    ensures DeleteEmpty([a] + seq(k, _ => "") + [b]) == [a, b]
  {
    var empties := seq(k, _ => "");
    DeleteEmptyAppend([a] + empties, [b]);
    DeleteEmptyAppend([a], empties);
    DeleteEmptyNone(k);
    assert DeleteEmpty([a]) == [a] by {
      assert [a][1..] == [];
    }
    assert DeleteEmpty([b]) == [b] by {
      assert [b][1..] == [];
    }
  }

  lemma {:induction false} DeleteEmptyNone(k: nat)
    ensures DeleteEmpty(seq(k, _ => "")) == []
  {
    if k > 0 {
      assert seq(k, _ => "")[1..] == seq(k - 1, _ => "");
      DeleteEmptyNone(k - 1);
    }
  }

}
