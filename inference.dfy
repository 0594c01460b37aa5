/**
  `infer_requirements`: three rules applied to a feature set, in order. Every
  function whose name mentions a fee or a penalty, every variable that
  fuzzy-matches a glossary term, and every comment that asks to validate
  yields one requirement statement, with a confidence and the evidence it
  came from. Confidences are kept in hundredths, the two decimals
  `score_confidence` rounds to.
*/
module Inference {
  import opened Strings
  import opened Extraction
  import opened Matching

  /** One inferred requirement: its statement, its confidence in hundredths, and its evidence. */
  datatype Requirement = Requirement(text: string, confidence: nat, evidence: string)

  /**
    `score_confidence(n)`: one half plus a tenth per piece of evidence,
    capped at one, in hundredths. It always lies between one half and one,
    and reaches one from five pieces on.
  */
  function ScoreConfidence(evidenceCount: nat): (c: nat)
    ensures 50 <= c <= 100
    ensures c == 100 <==> evidenceCount >= 5
    ensures evidenceCount < 5 ==> c == 50 + 10 * evidenceCount
  {
    if 50 + 10 * evidenceCount <= 100 then 50 + 10 * evidenceCount else 100
  }

  /** More evidence never lowers the confidence. */
  lemma ScoreConfidenceMonotone(a: nat, b: nat)
    requires a <= b
    ensures ScoreConfidence(a) <= ScoreConfidence(b)
  {
  }

  const FeeText: string := "The system calculates a penalty or fee for a condition."
  const ValidationText: string := "The system includes validation logic."

  /** `re.search(r"fee|penalt", name, re.IGNORECASE)`, on the ASCII case mapping. */
  predicate IsFeeName(name: string) {
    Contains(Lower(name), "fee") || Contains(Lower(name), "penalt")
  }

  /** `'validate' in comment.lower()`. */
  predicate IsValidationComment(comment: string) {
    Contains(Lower(comment), "validate")
  }

  /** The requirement the fee rule states for a function. */
  function FeeRequirement(name: string): Requirement {
    Requirement(FeeText, ScoreConfidence(2), "Function: `" + name + "`")
  }

  /** The requirement the glossary rule states for a variable and the term it matched. */
  function GlossaryRequirement(variable: string, key: string, description: string): Requirement {
    Requirement(
      "The system uses `" + key + "`: " + description + ".",
      ScoreConfidence(2),
      "Variable: `" + variable + "` matched glossary: `" + key + "`")
  }

  /** The requirement the validation rule states for a comment. */
  function ValidationRequirement(comment: string): Requirement {
    Requirement(ValidationText, ScoreConfidence(1), "Comment: `" + comment + "`")
  }

  /** What the fee rule yields for one function. */
  function FeeFinding(f: FunctionInfo): seq<Requirement> {
    if IsFeeName(f.name) then [FeeRequirement(f.name)] else []
  }

  /**
    What the glossary rule yields for one variable: a requirement when the
    fuzzy match found a key, unless that key is the empty string, which
    Python's `if match:` treats as no match.
  */
  function GlossaryFinding(blocks: BlockCount, variable: string, glossary: Glossary): seq<Requirement> {
    var m := FuzzyMatch(blocks, variable, glossary);
    if m.Match? && m.key != "" then [GlossaryRequirement(variable, m.key, m.description)] else []
  }

  /** What the validation rule yields for one comment. */
  function ValidationFinding(comment: string): seq<Requirement> {
    if IsValidationComment(comment) then [ValidationRequirement(comment)] else []
  }

  /** A rule applied to each item of a list in turn, its findings kept in order. */
  function Collect<T>(find: T -> seq<Requirement>, items: seq<T>): seq<Requirement> {
    if items == [] then []
    else Collect(find, items[..|items| - 1]) + find(items[|items| - 1])
  }

  /** The fee rule over the functions. */
  function FeeFindings(functions: seq<FunctionInfo>): seq<Requirement> {
    Collect(FeeFinding, functions)
  }

  /** The glossary rule for a given similarity and glossary, as a function of the variable. */
  function GlossaryRule(blocks: BlockCount, glossary: Glossary): string -> seq<Requirement> {
    v => GlossaryFinding(blocks, v, glossary)
  }

  /** The glossary rule over the variables. */
  function GlossaryFindings(blocks: BlockCount, variables: seq<string>, glossary: Glossary): seq<Requirement> {
    Collect(GlossaryRule(blocks, glossary), variables)
  }

  /** The validation rule over the comments. */
  function ValidationFindings(comments: seq<string>): seq<Requirement> {
    Collect(ValidationFinding, comments)
  }

  /** A requirement is collected exactly when the rule yields it for some item. */
  lemma {:induction false} CollectMembership<T>(find: T -> seq<Requirement>, items: seq<T>, r: Requirement)
    ensures r in Collect(find, items) <==> exists i :: 0 <= i < |items| && r in find(items[i])
  {
    if items != [] {
      var n := |items| - 1;
      var prefix := items[..n];
      CollectMembership(find, prefix, r);
      assert forall i :: 0 <= i < n ==> prefix[i] == items[i];
      if r in find(items[n]) {
        assert r in Collect(find, items);
      }
    }
  }

  /** The positions of the items a rule finds something for. */
  function HitIndices<T>(find: T -> seq<Requirement>, items: seq<T>): set<int> {
    set i | 0 <= i < |items| && find(items[i]) != []
  }

  /** A rule yielding at most one finding per item yields exactly one per item it fires on. */
  lemma {:induction false} CollectCount<T>(find: T -> seq<Requirement>, items: seq<T>)
    requires forall x :: |find(x)| <= 1
    ensures |Collect(find, items)| == |HitIndices(find, items)|
  {
    if items != [] {
      var n := |items| - 1;
      var prefix := items[..n];
      CollectCount(find, prefix);
      var last: set<int> := if find(items[n]) != [] then {n} else {};
      assert HitIndices(find, items) == HitIndices(find, prefix) + last by {
        forall i
          ensures i in HitIndices(find, items) <==> i in HitIndices(find, prefix) + last
        {
          if 0 <= i < n {
            assert prefix[i] == items[i];
          }
        }
      }
      assert n !in HitIndices(find, prefix);
    }
  }

  /** All requirements, fee rule first, then glossary, then validation. */
  function Infer(blocks: BlockCount, features: Features, glossary: Glossary): seq<Requirement> {
    FeeFindings(features.functions)
    + GlossaryFindings(blocks, features.variables, glossary)
    + ValidationFindings(features.comments)
  }

  /** One more item adds its own findings at the end. */
  lemma CollectSnoc<T>(find: T -> seq<Requirement>, items: seq<T>, i: nat)
    requires i < |items|
    ensures Collect(find, items[..i + 1]) == Collect(find, items[..i]) + find(items[i])
  {
    var upTo := items[..i + 1];
    assert upTo[..|upTo| - 1] == items[..i];
  }

  /**
    `infer_requirements(features, glossary)`: the three rule loops. The second
    and third loops gather their findings in a list of their own that is then
    appended, which leaves the same list as appending one by one.
  */
  method InferRequirements(blocks: BlockCount, features: Features, glossary: Glossary)
    returns (requirements: seq<Requirement>)
    ensures requirements == Infer(blocks, features, glossary)
  {
    requirements := [];
    var functions := features.functions;
    var i := 0;
    while i < |functions|
      invariant 0 <= i <= |functions|
      invariant requirements == Collect(FeeFinding, functions[..i])
    {
      var f := functions[i];
      CollectSnoc(FeeFinding, functions, i);
      if IsFeeName(f.name) {
        requirements := requirements + [FeeRequirement(f.name)];
      }
      i := i + 1;
    }
    assert functions[..i] == functions;

    var variables := features.variables;
    var rule := GlossaryRule(blocks, glossary);
    var matched := [];
    var j := 0;
    while j < |variables|
      invariant 0 <= j <= |variables|
      invariant matched == Collect(rule, variables[..j])
    {
      var v := variables[j];
      CollectSnoc(rule, variables, j);
      assert rule(v) == GlossaryFinding(blocks, v, glossary);
      var m := FuzzyMatch(blocks, v, glossary);
      if m.Match? && m.key != "" {
        matched := matched + [GlossaryRequirement(v, m.key, m.description)];
      }
      j := j + 1;
    }
    assert variables[..j] == variables;
    requirements := requirements + matched;

    var comments := features.comments;
    var validated := [];
    var k := 0;
    while k < |comments|
      invariant 0 <= k <= |comments|
      invariant validated == Collect(ValidationFinding, comments[..k])
    {
      var c := comments[k];
      CollectSnoc(ValidationFinding, comments, k);
      if IsValidationComment(c) {
        validated := validated + [ValidationRequirement(c)];
      }
      k := k + 1;
    }
    assert comments[..k] == comments;
    requirements := requirements + validated;
  }

  /** The fee rule reports exactly the functions whose names mention a fee or a penalty. */
  lemma FeeRuleExactly(functions: seq<FunctionInfo>, r: Requirement)
    ensures r in FeeFindings(functions) <==>
      exists i :: 0 <= i < |functions| && IsFeeName(functions[i].name) && r == FeeRequirement(functions[i].name)
  {
    CollectMembership(FeeFinding, functions, r);
  }

  /**
    The glossary rule reports exactly the variables whose fuzzy match found a
    non-empty key, each with the key and description it matched.
  */
  lemma GlossaryRuleExactly(blocks: BlockCount, variables: seq<string>, glossary: Glossary, r: Requirement)
    ensures r in GlossaryFindings(blocks, variables, glossary) <==>
      exists i :: 0 <= i < |variables| &&
        var m := FuzzyMatch(blocks, variables[i], glossary);
        m.Match? && m.key != "" && r == GlossaryRequirement(variables[i], m.key, m.description)
  {
    var rule := GlossaryRule(blocks, glossary);
    CollectMembership(rule, variables, r);
    assert forall v :: rule(v) == GlossaryFinding(blocks, v, glossary);
  }

  /** The validation rule reports exactly the comments that mention validating. */
  lemma ValidationRuleExactly(comments: seq<string>, r: Requirement)
    ensures r in ValidationFindings(comments) <==>
      exists i :: 0 <= i < |comments| && IsValidationComment(comments[i]) && r == ValidationRequirement(comments[i])
  {
    CollectMembership(ValidationFinding, comments, r);
  }

  /** The fee rule yields one requirement per fee-named function. */
  lemma FeeCount(functions: seq<FunctionInfo>)
    ensures |FeeFindings(functions)| == |set i | 0 <= i < |functions| && IsFeeName(functions[i].name)|
  {
    CollectCount(FeeFinding, functions);
    assert HitIndices(FeeFinding, functions) == set i | 0 <= i < |functions| && IsFeeName(functions[i].name);
  }

  /** The glossary rule yields one requirement per variable with a non-empty match. */
  lemma GlossaryCount(blocks: BlockCount, variables: seq<string>, glossary: Glossary)
    ensures |GlossaryFindings(blocks, variables, glossary)|
      == |set i | 0 <= i < |variables| && GlossaryFinding(blocks, variables[i], glossary) != []|
  {
    var rule := GlossaryRule(blocks, glossary);
    CollectCount(rule, variables);
    assert HitIndices(rule, variables)
      == set i | 0 <= i < |variables| && GlossaryFinding(blocks, variables[i], glossary) != [] by {
      assert forall v :: rule(v) == GlossaryFinding(blocks, v, glossary);
    }
  }

  /** The validation rule yields one requirement per comment that mentions validating. */
  lemma ValidationCount(comments: seq<string>)
    ensures |ValidationFindings(comments)| == |set i | 0 <= i < |comments| && IsValidationComment(comments[i])|
  {
    CollectCount(ValidationFinding, comments);
    assert HitIndices(ValidationFinding, comments) == set i | 0 <= i < |comments| && IsValidationComment(comments[i]);
  }

  /**
    The number of requirements is the number of fee-named functions, plus
    the number of variables with a non-empty glossary match, plus the number
    of comments that mention validating.
  */
  lemma InferCount(blocks: BlockCount, features: Features, glossary: Glossary)
    ensures var fs, vs, cs := features.functions, features.variables, features.comments;
      |Infer(blocks, features, glossary)|
      == |set i | 0 <= i < |fs| && IsFeeName(fs[i].name)|
       + |set i | 0 <= i < |vs| && GlossaryFinding(blocks, vs[i], glossary) != []|
       + |set i | 0 <= i < |cs| && IsValidationComment(cs[i])|
  {
    FeeCount(features.functions);
    GlossaryCount(blocks, features.variables, glossary);
    ValidationCount(features.comments);
  }

  /**
    Which rule a requirement came from, read off its evidence: 0 fee, 1
    glossary, 2 validation. It relies on the three evidence texts starting
    with different letters (`Function`, `Variable`, `Comment`); the
    `*FindingsKind` lemmas check that for each rule.
  */
  function RuleOf(r: Requirement): nat {
    if r.evidence != [] && r.evidence[0] == 'F' then 0
    else if r.evidence != [] && r.evidence[0] == 'V' then 1
    else 2
  }

  /** Every fee finding has confidence 0.7 and is attributed to the fee rule. */
  lemma FeeFindingsKind(functions: seq<FunctionInfo>)
    ensures forall r :: r in FeeFindings(functions) ==> r.confidence == 70 && RuleOf(r) == 0
  {
    forall r | r in FeeFindings(functions)
      ensures r.confidence == 70 && RuleOf(r) == 0
    {
      FeeRuleExactly(functions, r);
      var i :| 0 <= i < |functions| && r == FeeRequirement(functions[i].name);
      assert r.evidence[0] == 'F';
    }
  }

  /** Every glossary finding has confidence 0.7 and is attributed to the glossary rule. */
  lemma GlossaryFindingsKind(blocks: BlockCount, variables: seq<string>, glossary: Glossary)
    ensures forall r :: r in GlossaryFindings(blocks, variables, glossary) ==> r.confidence == 70 && RuleOf(r) == 1
  {
    forall r | r in GlossaryFindings(blocks, variables, glossary)
      ensures r.confidence == 70 && RuleOf(r) == 1
    {
      GlossaryRuleExactly(blocks, variables, glossary, r);
      var i :| 0 <= i < |variables| &&
        var m := FuzzyMatch(blocks, variables[i], glossary);
        m.Match? && m.key != "" && r == GlossaryRequirement(variables[i], m.key, m.description);
      assert r.evidence[0] == 'V';
    }
  }

  /** Every validation finding has confidence 0.6 and is attributed to the validation rule. */
  lemma ValidationFindingsKind(comments: seq<string>)
    ensures forall r :: r in ValidationFindings(comments) ==> r.confidence == 60 && RuleOf(r) == 2
  {
    forall r | r in ValidationFindings(comments)
      ensures r.confidence == 60 && RuleOf(r) == 2
    {
      ValidationRuleExactly(comments, r);
      var i :| 0 <= i < |comments| && r == ValidationRequirement(comments[i]);
      assert r.evidence[0] == 'C';
    }
  }

  /**
    Every requirement has a confidence between 0.5 and 1 (in hundredths): 0.7
    for the fee and glossary rules, 0.6 for the validation rule; and the list
    holds the fee findings first, then the glossary ones, then the
    validation ones.
  */
  lemma InferredConfidenceAndOrder(blocks: BlockCount, features: Features, glossary: Glossary)
    ensures var reqs := Infer(blocks, features, glossary);
      && (forall r :: r in reqs ==> 50 <= r.confidence <= 100)
      && (forall r :: r in reqs ==> (r.confidence == 70 && RuleOf(r) < 2) || (r.confidence == 60 && RuleOf(r) == 2))
      && (forall i, j :: 0 <= i <= j < |reqs| ==> RuleOf(reqs[i]) <= RuleOf(reqs[j]))
  {
    var fees := FeeFindings(features.functions);
    var matched := GlossaryFindings(blocks, features.variables, glossary);
    var valid := ValidationFindings(features.comments);
    FeeFindingsKind(features.functions);
    GlossaryFindingsKind(blocks, features.variables, glossary);
    ValidationFindingsKind(features.comments);
    var reqs := fees + matched + valid;
    forall i | 0 <= i < |reqs|
      ensures reqs[i] in fees ==> RuleOf(reqs[i]) == 0
      ensures reqs[i] in matched ==> RuleOf(reqs[i]) == 1
      ensures reqs[i] in valid ==> RuleOf(reqs[i]) == 2
      ensures i < |fees| ==> RuleOf(reqs[i]) == 0
      ensures |fees| <= i < |fees| + |matched| ==> RuleOf(reqs[i]) == 1
      ensures |fees| + |matched| <= i ==> RuleOf(reqs[i]) == 2
    {
      if i < |fees| {
        assert reqs[i] == fees[i];
      } else if i < |fees| + |matched| {
        assert reqs[i] == matched[i - |fees|];
      } else {
        assert reqs[i] == valid[i - |fees| - |matched|];
      }
    }
  }

  /** The fee evidence names the function, and the validation evidence quotes the comment. */
  lemma EvidenceCitesTrigger(name: string, comment: string)
    ensures Contains(FeeRequirement(name).evidence, name)
    ensures Contains(ValidationRequirement(comment).evidence, comment)
  {
    ContainsInfix("Function: `", name, "`");
    ContainsInfix("Comment: `", comment, "`");
  }

  /** The glossary statement names the matched term, and its evidence names the variable and the term. */
  lemma GlossaryRequirementCites(variable: string, key: string, description: string)
    ensures var r := GlossaryRequirement(variable, key, description);
      && Contains(r.text, key) && Contains(r.text, description)
      && Contains(r.evidence, variable) && Contains(r.evidence, key)
  {
    ContainsPieces("The system uses `", key, "`: ", description, ".");
    ContainsPieces("Variable: `", variable, "` matched glossary: `", key, "`");
  }

  /** A glossary whose only key is the empty string never yields a glossary requirement. */
  lemma EmptyKeyNeverReported(blocks: BlockCount, variables: seq<string>, description: string)
    ensures GlossaryFindings(blocks, variables, [Entry("", description)]) == []
  {
    var reqs := GlossaryFindings(blocks, variables, [Entry("", description)]);
    if reqs != [] {
      GlossaryRuleExactly(blocks, variables, [Entry("", description)], reqs[0]);
      assert false;
    }
  }

  /** The fee rule on the function of tests/test_inference.py:18. */
  lemma MockFunctionFinding()
    ensures FeeFindings([FunctionInfo("charge_late_fee", "")]) == [FeeRequirement("charge_late_fee")]
  {
    var fn := FunctionInfo("charge_late_fee", "");
    ContainsLowered("charge_late_fee", "fee", 12);
    assert [fn][..0] == [];
    assert FeeFinding(fn) == [FeeRequirement("charge_late_fee")];
    assert Collect(FeeFinding, [fn]) == Collect(FeeFinding, []) + FeeFinding(fn);
  }

  /** The glossary rule on the variable and glossary of tests/test_inference.py:19,23, for any similarity. */
  lemma MockVariableFinding(blocks: BlockCount)
    ensures GlossaryFindings(blocks, ["customer_id"], [Entry("customer_id", "A unique ID for a customer")])
      == [GlossaryRequirement("customer_id", "customer_id", "A unique ID for a customer")]
  {
    var entry := Entry("customer_id", "A unique ID for a customer");
    var glossary := [entry];
    LowerKeeps("customer_id");
    ExactKeyMatches(blocks, "customer_id", glossary, entry);
    assert FuzzyMatch(blocks, "customer_id", glossary) == Match("customer_id", "A unique ID for a customer");
    assert ["customer_id"][..0] == [];
    var rule := GlossaryRule(blocks, glossary);
    assert rule("customer_id") == GlossaryFinding(blocks, "customer_id", glossary);
    assert Collect(rule, ["customer_id"]) == Collect(rule, []) + rule("customer_id");
  }

  /** The validation rule on the comment of tests/test_inference.py:21. */
  lemma MockCommentFinding()
    ensures ValidationFindings(["# validate input"]) == [ValidationRequirement("# validate input")]
  {
    ContainsLowered("# validate input", "validate", 2);
    assert ["# validate input"][..0] == [];
    assert Collect(ValidationFinding, ["# validate input"])
      == Collect(ValidationFinding, []) + ValidationFinding("# validate input");
  }

  /**
    The scenario of tests/test_inference.py:16-26, for any similarity: a
    fee-named function, a variable that is a glossary key and a comment
    asking to validate give three requirements, in that order, with
    confidences 0.7, 0.7 and 0.6, one of them naming `customer_id`.
  */
  lemma MockGlossaryScenario(blocks: BlockCount)
    ensures var features := Features([FunctionInfo("charge_late_fee", "")], ["customer_id"], [], ["# validate input"]);
      var glossary := [Entry("customer_id", "A unique ID for a customer")];
      var reqs := Infer(blocks, features, glossary);
      && reqs == [
        FeeRequirement("charge_late_fee"),
        GlossaryRequirement("customer_id", "customer_id", "A unique ID for a customer"),
        ValidationRequirement("# validate input")]
      && reqs[0].confidence == 70 && reqs[1].confidence == 70 && reqs[2].confidence == 60
      && Contains(reqs[1].text, "customer_id")
  {
    MockFunctionFinding();
    MockVariableFinding(blocks);
    MockCommentFinding();
    GlossaryRequirementCites("customer_id", "customer_id", "A unique ID for a customer");
  }
}
