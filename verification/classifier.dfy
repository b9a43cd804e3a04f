/**
  `classify_investor_type`: an ordered list of keyword rules over the lower
  cased name and SIC description; the first rule with a keyword in the text
  decides the label.
 */
module Classifier {
  import opened Strings

  const FamilyOffice := "Family Office"
  const VentureCapital := "Venture Capital"
  const PrivateEquity := "Private Equity"
  const HedgeFund := "Hedge Fund"
  const AssetManagement := "Asset Management"
  const InvestmentCompany := "Investment Company"
  const OtherInstitutional := "Other Institutional"

  const Labels: seq<string> :=
    [FamilyOffice, VentureCapital, PrivateEquity, HedgeFund, AssetManagement, InvestmentCompany, OtherInstitutional]

  datatype Rule = Rule(category: string, keywords: seq<string>)

  /** The rules in the order the program tests them. */
  const Rules: seq<Rule> := [
    Rule(FamilyOffice, ["family", "office", "trust", "estate"]),
    Rule(VentureCapital, ["venture", "ventures", "seed", "startup"]),
    Rule(PrivateEquity, ["private equity", "buyout", "leveraged"]),
    Rule(HedgeFund, ["hedge", "offshore", "alternative"]),
    Rule(AssetManagement, ["asset management", "wealth", "advisory"]),
    Rule(InvestmentCompany, ["capital", "partners", "fund", "investment"])
  ]

  /** `any(kw in text for kw in keywords)` */
  predicate AnyIn(keywords: seq<string>, text: string) {
    exists k :: 0 <= k < |keywords| && Contains(text, keywords[k])
  }

  predicate RuleFires(k: nat, text: string)
    requires k < |Rules|
  {
    AnyIn(Rules[k].keywords, text)
  }

  /** `f"{name.lower()} {sic_lower}"`; a missing description is `''`. */
  function Combined(name: string, sicDescription: string): string {
    Lower(name) + " " + Lower(sicDescription)
  }

  /** The six tests on the combined text in the program's order, then the
      default. */
  function ClassifyText(combined: string): (kind: string)
    ensures kind in Labels
  {
    if RuleFires(0, combined) then FamilyOffice
    else if RuleFires(1, combined) then VentureCapital
    else if RuleFires(2, combined) then PrivateEquity
    else if RuleFires(3, combined) then HedgeFund
    else if RuleFires(4, combined) then AssetManagement
    else if RuleFires(5, combined) then InvestmentCompany
    else OtherInstitutional
  }

  /** The classifier: build the combined text, then test it. */
  function Classify(name: string, sicDescription: string): (kind: string)
    ensures kind in Labels
  {
    ClassifyText(Combined(name, sicDescription))
  }

  /** The label is that of the first rule, in program order, with a keyword
      in the combined text; the default is returned exactly when no rule
      fires. */
  lemma ClassifyIsFirstMatch(name: string, sicDescription: string)
    ensures var kind := Classify(name, sicDescription);
            var text := Combined(name, sicDescription);
            && (kind == OtherInstitutional <==> forall k :: 0 <= k < |Rules| ==> !RuleFires(k, text))
            && (forall k :: 0 <= k < |Rules| && kind == Rules[k].category ==>
                  RuleFires(k, text) && forall j :: 0 <= j < k ==> !RuleFires(j, text))
  {
    var text := Combined(name, sicDescription);
    var kind := ClassifyText(text);
    forall k | 0 <= k < |Rules| && kind == Rules[k].category
      ensures RuleFires(k, text) && forall j :: 0 <= j < k ==> !RuleFires(j, text)
    {
      assert k == 0 || k == 1 || k == 2 || k == 3 || k == 4 || k == 5;
    }
    if kind == OtherInstitutional {
      forall k | 0 <= k < |Rules|
        ensures !RuleFires(k, text)
      {
        assert k == 0 || k == 1 || k == 2 || k == 3 || k == 4 || k == 5;
      }
    }
  }

  /** A reference reading of the rule table: the label of the first rule in
      `rules` that fires on `text`, or the default. */
  function FirstFiring(rules: seq<Rule>, text: string): string {
    if |rules| == 0 then OtherInstitutional
    else if AnyIn(rules[0].keywords, text) then rules[0].category
    else FirstFiring(rules[1..], text)
  }

  lemma FirstFiringStep(i: nat, t: string)
    requires i < |Rules|
    ensures FirstFiring(Rules[i..], t) ==
              if RuleFires(i, t) then Rules[i].category else FirstFiring(Rules[i + 1..], t)
  {
    assert Rules[i..][0] == Rules[i];
    assert Rules[i..][1..] == Rules[i + 1..];
  }

  /** The hand-written chain of tests agrees with the table read in order. */
  lemma ClassifyIsFirstFiringRule(name: string, sicDescription: string)
    ensures Classify(name, sicDescription) == FirstFiring(Rules, Combined(name, sicDescription))
  {
    var t := Combined(name, sicDescription);
    var f6 := FirstFiring(Rules[6..], t);
    assert f6 == OtherInstitutional by {
      assert Rules[6..] == [];
    }
    var f5 := FirstFiring(Rules[5..], t);
    assert f5 == if RuleFires(5, t) then InvestmentCompany else f6 by {
      FirstFiringStep(5, t);
    }
    var f4 := FirstFiring(Rules[4..], t);
    assert f4 == if RuleFires(4, t) then AssetManagement else f5 by {
      FirstFiringStep(4, t);
    }
    var f3 := FirstFiring(Rules[3..], t);
    assert f3 == if RuleFires(3, t) then HedgeFund else f4 by {
      FirstFiringStep(3, t);
    }
    var f2 := FirstFiring(Rules[2..], t);
    assert f2 == if RuleFires(2, t) then PrivateEquity else f3 by {
      FirstFiringStep(2, t);
    }
    var f1 := FirstFiring(Rules[1..], t);
    assert f1 == if RuleFires(1, t) then VentureCapital else f2 by {
      FirstFiringStep(1, t);
    }
    assert FirstFiring(Rules, t) == if RuleFires(0, t) then FamilyOffice else f1 by {
      FirstFiringStep(0, t);
      assert Rules[0..] == Rules;
    }
  }

  /** Classification depends on the two texts only through their lower-case
      forms. */
  lemma ClassifyIgnoresCase(name: string, sic: string, name': string, sic': string)
    requires Lower(name) == Lower(name') && Lower(sic) == Lower(sic')
    ensures Classify(name, sic) == Classify(name', sic')
  {
    assert Combined(name, sic) == Combined(name', sic');
  }

  /** A name carrying both a family-office and a venture keyword is a family
      office, because that rule is tested first. */
  lemma FamilyRuleComesFirst()
    ensures Classify("Acme Family Trust Ventures", "") == FamilyOffice
  {
    var a, b, c := "Acme ", "Family", " Trust Ventures";
    assert a + b + c == "Acme Family Trust Ventures";
    var t := Combined(a + b + c, "");
    LowerAppend(a + b, c);
    LowerAppend(a, b);
    assert Lower(b) == "family";
    var x := Lower(a);
    assert t == x + "family" + (Lower(c) + " " + Lower(""));
    assert OccursAt(t, "family", |x|);
    assert OccursAt(t, Rules[0].keywords[0], |x|);
    assert RuleFires(0, t);
  }
}
