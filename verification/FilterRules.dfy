/** Filter conditions and first-match selection. */
module FilterRules {
  import opened MailServer
  import opened Text

  datatype Column = Subject | From | To

  /** Matches carries the compiled pattern of a =~ condition. */
  datatype Inclusion = Contains | Lacks | Equals | Matches(pattern: string -> bool) | OtherInclusion

  datatype Condition = Condition(column: Column, inclusion: Inclusion, value: string)

  datatype Chain = Or | And | OtherChain

  datatype Rule = Rule(chain: Chain, conditions: seq<Condition>)

  function Texts(h: Header, column: Column): seq<string> {
    match column
    case Subject => [h.subject]
    case From => [h.from]
    case To => h.to
  }

  /** Equality up to letter case, `low` being the case folding of the pattern engine. */
  predicate SameFolded(a: string, b: string, low: char -> char) {
    |a| == |b| && forall i :: 0 <= i < |a| ==> low(a[i]) == low(b[i])
  }

  predicate ContainsFolded(text: string, value: string, low: char -> char) {
    exists i :: 0 <= i <= |text| && FoldedAt(text, i, value, low)
  }

  predicate FoldedAt(text: string, i: nat, value: string, low: char -> char) {
    i + |value| <= |text| && SameFolded(text[i..i + |value|], value, low)
  }

  predicate TextMatches(c: Condition, text: string, low: char -> char) {
    match c.inclusion
    case Contains => ContainsFolded(text, c.value, low)
    case Lacks => !ContainsFolded(text, c.value, low)
    case Equals => text == c.value
    case Matches(pattern) => pattern(text)
    case OtherInclusion => false
  }

  predicate ConditionMatches(c: Condition, h: Header, low: char -> char) {
    exists i :: 0 <= i < |Texts(h, c.column)| && TextMatches(c, Texts(h, c.column)[i], low)
  }

  predicate RuleMatches(r: Rule, h: Header, low: char -> char) {
    match r.chain
    case Or => exists i :: 0 <= i < |r.conditions| && ConditionMatches(r.conditions[i], h, low)
    case And => forall i :: 0 <= i < |r.conditions| ==> ConditionMatches(r.conditions[i], h, low)
    case OtherChain => false
  }

  /** Index of the first rule that matches, or the number of rules. */
  function First(rules: seq<Rule>, h: Header, low: char -> char): (k: nat)
    ensures k <= |rules|
    ensures forall i :: 0 <= i < k ==> !RuleMatches(rules[i], h, low)
    ensures k < |rules| ==> RuleMatches(rules[k], h, low)
  {
    if rules == [] then 0
    else if RuleMatches(rules[0], h, low) then 0
    else 1 + First(rules[1..], h, low)
  }

  // ----- What conditions and rules mean -----

  /** The folded text has the folded value as a part. */
  ghost predicate HasPart(text: string, value: string, low: char -> char) {
    exists p, q :: Lower(text, low) == p + Lower(value, low) + q
  }

  /** A text contains a value up to letter case exactly when its folded form has the folded value as a part. */
  lemma ContainsIs(text: string, value: string, low: char -> char)
    ensures ContainsFolded(text, value, low) <==> HasPart(text, value, low)
  {
    var t, v := Lower(text, low), Lower(value, low);
    if i: nat :| i <= |text| && FoldedAt(text, i, value, low) {
      assert t[i..i + |value|] == v;
      assert t == t[..i] + v + t[i + |value|..];
    }
    if p, q :| t == p + v + q {
      assert t[|p|..|p| + |v|] == v;
      forall k | 0 <= k < |value| ensures low(text[|p|..|p| + |value|][k]) == low(value[k]) {
        assert t[|p| + k] == v[k];
      }
      assert |p| <= |text| && FoldedAt(text, |p|, value, low);
    }
  }

  /** Where a column has one text, "does not contain" is the opposite of "contains". */
  lemma LacksOne(column: Column, value: string, h: Header, low: char -> char)
    requires |Texts(h, column)| == 1
    ensures ConditionMatches(Condition(column, Lacks, value), h, low) <==>
      !ConditionMatches(Condition(column, Contains, value), h, low)
  {
    var yes, no := Condition(column, Contains, value), Condition(column, Lacks, value);
    assert TextMatches(no, Texts(h, column)[0], low) <==> !TextMatches(yes, Texts(h, column)[0], low);
  }

  /** With several recipients it asks that one of them lacks the value, not that all do. */
  lemma LacksSome(value: string, h: Header, low: char -> char)
    ensures ConditionMatches(Condition(To, Lacks, value), h, low) <==>
      exists a :: a in h.to && !HasPart(a, value, low)
  {
    var c := Condition(To, Lacks, value);
    assert Texts(h, To) == h.to;
    forall a ensures TextMatches(c, a, low) <==> !HasPart(a, value, low) { ContainsIs(a, value, low); }
    hide TextMatches; hide HasPart;
    if ConditionMatches(c, h, low) {
      var i :| 0 <= i < |h.to| && TextMatches(c, h.to[i], low);
      assert h.to[i] in h.to;
    }
    if a :| a in h.to && !HasPart(a, value, low) {
      var i :| 0 <= i < |h.to| && h.to[i] == a;
      assert TextMatches(c, h.to[i], low);
    }
  }

  /** A condition more: an "and" rule keeps what also matches the condition, an "or" rule adds what matches it.
      Without conditions "and" matches everything and "or" nothing, and an unknown chain never matches. */
  lemma ConditionAdded(conditions: seq<Condition>, c: Condition, h: Header, low: char -> char)
    ensures RuleMatches(Rule(And, conditions + [c]), h, low) <==>
      RuleMatches(Rule(And, conditions), h, low) && ConditionMatches(c, h, low)
    ensures RuleMatches(Rule(Or, conditions + [c]), h, low) <==>
      RuleMatches(Rule(Or, conditions), h, low) || ConditionMatches(c, h, low)
    ensures RuleMatches(Rule(And, []), h, low) && !RuleMatches(Rule(Or, []), h, low)
    ensures !RuleMatches(Rule(OtherChain, conditions), h, low)
  {
    hide ConditionMatches;
    var all := conditions + [c];
    assert all[|conditions|] == c && forall i :: 0 <= i < |conditions| ==> all[i] == conditions[i];
    if i :| 0 <= i < |conditions| && ConditionMatches(conditions[i], h, low) {
      assert ConditionMatches(all[i], h, low);
    }
  }

  /** Equality asks that the value is one of the texts, a pattern that one of them matches; an unknown operator
      matches nothing. */
  lemma OtherOperators(column: Column, value: string, pattern: string -> bool, h: Header, low: char -> char)
    ensures ConditionMatches(Condition(column, Equals, value), h, low) <==> value in Texts(h, column)
    ensures ConditionMatches(Condition(column, Matches(pattern), value), h, low) <==>
      exists a :: a in Texts(h, column) && pattern(a)
    ensures !ConditionMatches(Condition(column, OtherInclusion, value), h, low)
  {
    var texts, e, c := Texts(h, column), Condition(column, Equals, value), Condition(column, Matches(pattern), value);
    forall i | 0 <= i < |texts| ensures TextMatches(e, texts[i], low) <==> texts[i] == value {}
    forall i | 0 <= i < |texts| ensures TextMatches(c, texts[i], low) <==> pattern(texts[i]) {}
    if a :| a in texts && pattern(a) {
      var i :| 0 <= i < |texts| && texts[i] == a;
      assert TextMatches(c, texts[i], low);
    }
    if value in texts {
      var i :| 0 <= i < |texts| && texts[i] == value;
      assert TextMatches(e, texts[i], low);
    }
  }
}
