/**
 * The contact form's validation: a fixed table of field rules applied to a
 * snapshot of the form, one field at a time, in the table's order. For each
 * field the checks run required, then pattern, then minimum length, and the
 * first one that fails decides the field's single message.
 */
module Validation {
  import opened Wrappers
  import opened JsText

  /** The only pattern the table uses: `/^[^\s@]+@[^\s@]+\.[^\s@]+$/`. */
  datatype Pattern = EmailAddress

  /**
   * One entry of the rule table. `minLength == 0` stands for an absent
   * minimum, since the source tests `rule.minLength &&`, which skips zero.
   */
  datatype Rule = Rule(field: string, required: bool, pattern: Option<Pattern>, minLength: nat, message: string)

  /** The rule table, in declaration order (the order `Object.keys` yields). */
  const ContactRules: seq<Rule> := [
    Rule("name", true, None, 2, "Please enter your full name"),
    Rule("email", true, Some(EmailAddress), 0, "Please enter a valid email address"),
    Rule("message", true, None, 10, "Please tell us more about your project (minimum 10 characters)")
  ]

  /**
   * The form at submit time: a key is present when the form holds an element
   * with that `name`; its value is what `FormData.get` returns for it
   * (`None` for JavaScript's `null`, when the element contributes no entry).
   */
  type Snapshot = map<string, Option<string>>

  /** A character the email pattern's `[^\s@]` accepts. */
  predicate EmailPart(c: char) {
    !IsWhitespace(c) && c != '@'
  }

  /**
   * One way the email pattern can match `s`: `@` at `i` and the escaped `.` at
   * `j`, with the three parts between them non-empty and made of `[^\s@]`.
   * Any `.` inside the parts is an ordinary part character.
   */
  ghost predicate EmailSplit(s: string, i: int, j: int) {
    && 0 < i && i + 1 < j && j + 1 < |s|
    && s[i] == '@' && s[j] == '.'
    && forall k :: 0 <= k < |s| && k != i ==> EmailPart(s[k])
  }

  /** The length of the longest prefix of `s` made of `[^\s@]`. */
  function PartLength(s: string): (n: nat)
    ensures n <= |s|
    ensures forall k :: 0 <= k < n ==> EmailPart(s[k])
    ensures n < |s| ==> !EmailPart(s[n])
  {
    if s != [] && EmailPart(s[0]) then 1 + PartLength(s[1..]) else 0
  }

  /** `EMAIL.test(s)`, decided by a scan: local part, `@`, then a domain with an inner `.`. */
  function MatchesEmail(s: string): (r: bool)
    ensures r ==> |s| >= 5 && EmailPart(s[0]) && EmailPart(s[|s| - 1])
  {
    var i := PartLength(s);
    && 0 < i < |s| && s[i] == '@'
    && var domain := s[i + 1..];
    && PartLength(domain) == |domain| && |domain| >= 3
    && '.' in domain[1..|domain| - 1]
  }

  /** The scan accepts exactly the strings the regular expression matches. */
  lemma EmailMatchesPattern(s: string)
    ensures MatchesEmail(s) <==> exists i, j :: EmailSplit(s, i, j)
  {
    if MatchesEmail(s) {
      var i := PartLength(s);
      var domain := s[i + 1..];
      var m :| 0 <= m < |domain| - 2 && domain[1..|domain| - 1][m] == '.';
      var j := i + 2 + m;
      forall k | 0 <= k < |s| && k != i ensures EmailPart(s[k]) {
        if k > i {
          assert s[k] == domain[k - i - 1];
        }
      }
      assert EmailSplit(s, i, j);
    }
    if exists i, j :: EmailSplit(s, i, j) {
      var i, j :| EmailSplit(s, i, j);
      var n := PartLength(s);
      assert n == i;
      var domain := s[i + 1..];
      assert PartLength(domain) == |domain|;
      assert domain[1..|domain| - 1][j - i - 2] == '.';
    }
  }

  /** The pattern's whole effect: no whitespace at all, one `@` after a non-empty part, and a `.` inside the domain. */
  lemma EmailShape(s: string)
    requires MatchesEmail(s)
    ensures forall k :: 0 <= k < |s| ==> !IsWhitespace(s[k])
    ensures exists i :: 0 < i < |s| && s[i] == '@' && forall k :: 0 <= k < |s| && s[k] == '@' ==> k == i
  {
    EmailMatchesPattern(s);
    var i, j :| EmailSplit(s, i, j);
    assert forall k :: 0 <= k < |s| && s[k] == '@' ==> k == i;
  }

  lemma NullIsNotAnEmail()
    ensures !MatchesEmail("null")
  {
    assert PartLength("null"[3..]) == 1;
    assert PartLength("null"[2..]) == 2;
    assert PartLength("null"[1..]) == 3;
  }

  /** `pattern.test(value)`; `test` turns `null` into the string "null". */
  function PatternTest(p: Pattern, value: Option<string>): (r: bool)
    ensures value.None? ==> !r
  {
    NullIsNotAnEmail();
    match p
    case EmailAddress => MatchesEmail(if value.Some? then value.value else "null")
  }

  /**
   * The source reaches `value.trim()` in the minimum-length check, which throws
   * on `null`, only for a rule that is neither required nor has a pattern; the
   * table has no such rule.
   */
  predicate Evaluable(rule: Rule, value: Option<string>) {
    value.Some? || rule.required || rule.pattern.Some? || rule.minLength == 0
  }

  /** `!value || value.trim().length === 0`. */
  predicate Blank(value: Option<string>) {
    value.None? || |Trim(value.value)| == 0
  }

  /**
   * The message one field gets, or `None` when it passes: required, then
   * pattern on the untrimmed value, then minimum length on the trimmed value
   * counted in UTF-16 code units; the first failing check wins.
   */
  function CheckField(rule: Rule, value: Option<string>): (r: Option<string>)
    requires Evaluable(rule, value)
    ensures r.None? || r == Some(rule.message)
  {
    if rule.required && Blank(value) then Some(rule.message)
    else if rule.pattern.Some? && !PatternTest(rule.pattern.value, value) then Some(rule.message)
    else if rule.minLength > 0 && (NullIsNotAnEmail(); Utf16Length(Trim(value.value)) < rule.minLength) then Some(rule.message)
    else None
  }

  /** A required field left missing or blank fails with its message, and its pattern and minimum length are never consulted. */
  lemma RequiredShortCircuits(rule: Rule, value: Option<string>, other: Option<Pattern>, otherMin: nat)
    requires rule.required && Blank(value)
    ensures CheckField(rule, value) == Some(rule.message)
    ensures CheckField(rule, value) == CheckField(rule.(pattern := other, minLength := otherMin), value)
  {
  }

  /** A field that fails its pattern fails with its message, whatever its minimum length. */
  lemma PatternBeforeMinLength(rule: Rule, value: string, otherMin: nat)
    requires rule.pattern.Some? && !PatternTest(rule.pattern.value, Some(value))
    ensures CheckField(rule, Some(value)) == Some(rule.message)
    ensures CheckField(rule.(minLength := otherMin), Some(value)) == Some(rule.message)
  {
  }

  /** A field passes exactly when each check it carries holds. */
  lemma CheckFieldPasses(rule: Rule, value: string)
    ensures CheckField(rule, Some(value)).None? <==>
      && (rule.required ==> exists k :: 0 <= k < |value| && !IsWhitespace(value[k]))
      && (rule.pattern.Some? ==> PatternTest(rule.pattern.value, Some(value)))
      && (rule.minLength > 0 ==> Utf16Length(Trim(value)) >= rule.minLength)
  {
    TrimEmptyIffBlank(value);
  }

  /** What the table asks of each field, once the order of the checks is accounted for. */
  lemma ContactRulesMeaning(v: string)
    ensures CheckField(ContactRules[0], Some(v)).None? <==> Utf16Length(Trim(v)) >= 2
    ensures CheckField(ContactRules[1], Some(v)).None? <==> MatchesEmail(v)
    ensures CheckField(ContactRules[2], Some(v)).None? <==> Utf16Length(Trim(v)) >= 10
    ensures CheckField(ContactRules[0], None) == Some(ContactRules[0].message)
    ensures CheckField(ContactRules[1], None) == Some(ContactRules[1].message)
    ensures CheckField(ContactRules[2], None) == Some(ContactRules[2].message)
  {
    if MatchesEmail(v) {
      EmailShape(v);
      TrimEmptyIffBlank(v);
    }
  }

  /** Every field of the form can be checked without the source throwing. */
  predicate AllEvaluable(rules: seq<Rule>, snapshot: Snapshot) {
    forall i :: 0 <= i < |rules| && rules[i].field in snapshot ==> Evaluable(rules[i], snapshot[rules[i].field])
  }

  lemma ContactRulesEvaluable(snapshot: Snapshot)
    ensures AllEvaluable(ContactRules, snapshot)
  {
  }

  datatype FieldError = FieldError(field: string, message: string)

  /** The outcome of one validation: the overall flag and each failing field's message, in rule order. */
  datatype Verdict = Verdict(valid: bool, errors: seq<FieldError>)

  /** The error a rule contributes: none when its field is absent from the form or passes. */
  function ErrorOf(rule: Rule, snapshot: Snapshot): (r: Option<FieldError>)
    requires rule.field in snapshot ==> Evaluable(rule, snapshot[rule.field])
    ensures r.Some? ==> rule.field in snapshot && r.value == FieldError(rule.field, rule.message)
  {
    if rule.field !in snapshot then None
    else match CheckField(rule, snapshot[rule.field])
      case None => None
      case Some(m) => Some(FieldError(rule.field, m))
  }

  /** The verdict of the rules over a snapshot, accumulated in rule order. */
  function Evaluate(rules: seq<Rule>, snapshot: Snapshot): (v: Verdict)
    requires AllEvaluable(rules, snapshot)
    ensures v.valid <==> v.errors == []
    ensures |v.errors| <= |rules|
  {
    if rules == [] then Verdict(true, [])
    else
      var prev := Evaluate(rules[..|rules| - 1], snapshot);
      match ErrorOf(rules[|rules| - 1], snapshot)
      case None => prev
      case Some(e) => Verdict(false, prev.errors + [e])
  }

  /**
   * The form is valid exactly when every rule whose field is in the form
   * passes; rules without a field in the form are skipped.
   */
  lemma {:induction false} EvaluateValid(rules: seq<Rule>, snapshot: Snapshot)
    requires AllEvaluable(rules, snapshot)
    ensures Evaluate(rules, snapshot).valid <==> forall i :: 0 <= i < |rules| ==> ErrorOf(rules[i], snapshot).None?
    ensures Evaluate(rules, snapshot).valid <==> Evaluate(rules, snapshot).errors == []
  {
    if rules != [] {
      var init, last := rules[..|rules| - 1], rules[|rules| - 1];
      EvaluateValid(init, snapshot);
      var v, prev := Evaluate(rules, snapshot), Evaluate(init, snapshot);
      assert v.valid == (prev.valid && ErrorOf(last, snapshot).None?);
      assert v.errors == [] <==> prev.errors == [] && ErrorOf(last, snapshot).None?;
      assert forall i :: 0 <= i < |init| ==> init[i] == rules[i];
    }
  }

  /** Checking one more rule appends that rule's error, if any, to the errors so far. */
  lemma EvaluateStep(rules: seq<Rule>, snapshot: Snapshot)
    requires rules != [] && AllEvaluable(rules, snapshot)
    ensures AllEvaluable(rules[..|rules| - 1], snapshot)
    ensures Evaluate(rules, snapshot).errors ==
      Evaluate(rules[..|rules| - 1], snapshot).errors + Emitted(ErrorOf(rules[|rules| - 1], snapshot))
  {
  }

  /** Every error in the verdict comes from some rule whose field is in the form and fails. */
  lemma {:induction false} EvaluateErrorHasRule(rules: seq<Rule>, snapshot: Snapshot, e: FieldError)
    requires AllEvaluable(rules, snapshot)
    requires e in Evaluate(rules, snapshot).errors
    ensures exists i :: 0 <= i < |rules| && ErrorOf(rules[i], snapshot) == Some(e)
  {
    var init := rules[..|rules| - 1];
    EvaluateStep(rules, snapshot);
    if e in Evaluate(init, snapshot).errors {
      EvaluateErrorHasRule(init, snapshot, e);
      var i :| 0 <= i < |init| && ErrorOf(init[i], snapshot) == Some(e);
      assert init[i] == rules[i];
    } else {
      assert ErrorOf(rules[|rules| - 1], snapshot) == Some(e);
    }
  }

  /** Every rule whose field is in the form and fails has its error in the verdict. */
  lemma {:induction false} EvaluateHasRuleError(rules: seq<Rule>, snapshot: Snapshot, i: nat)
    requires AllEvaluable(rules, snapshot)
    requires i < |rules| && ErrorOf(rules[i], snapshot).Some?
    ensures ErrorOf(rules[i], snapshot).value in Evaluate(rules, snapshot).errors
  {
    var init := rules[..|rules| - 1];
    EvaluateStep(rules, snapshot);
    if i < |init| {
      assert init[i] == rules[i];
      EvaluateHasRuleError(init, snapshot, i);
    } else {
      assert Emitted(ErrorOf(rules[i], snapshot)) == [ErrorOf(rules[i], snapshot).value];
    }
  }

  /** The errors are exactly those of the rules whose field is in the form and fails. */
  lemma EvaluateErrors(rules: seq<Rule>, snapshot: Snapshot)
    requires AllEvaluable(rules, snapshot)
    ensures forall e :: e in Evaluate(rules, snapshot).errors <==> exists i :: 0 <= i < |rules| && ErrorOf(rules[i], snapshot) == Some(e)
  {
    forall e | e in Evaluate(rules, snapshot).errors
      ensures exists i :: 0 <= i < |rules| && ErrorOf(rules[i], snapshot) == Some(e)
    {
      EvaluateErrorHasRule(rules, snapshot, e);
    }
    forall i | 0 <= i < |rules| && ErrorOf(rules[i], snapshot).Some? {
      EvaluateHasRuleError(rules, snapshot, i);
    }
  }

  /** What one rule's outcome adds to the error list: its error, if any. */
  function Emitted(e: Option<FieldError>): seq<FieldError> {
    if e.Some? then [e.value] else []
  }

  lemma AllEvaluableTail(rules: seq<Rule>, snapshot: Snapshot)
    requires rules != [] && AllEvaluable(rules, snapshot)
    ensures AllEvaluable(rules[1..], snapshot)
  {
    assert forall i :: 0 <= i < |rules| - 1 ==> rules[1..][i] == rules[i + 1];
  }

  /**
   * The errors read from the first rule to the last: each rule whose field is
   * in the form and fails contributes exactly one error, in its place.
   */
  function ErrorsInRuleOrder(rules: seq<Rule>, snapshot: Snapshot): (r: seq<FieldError>)
    requires AllEvaluable(rules, snapshot)
    ensures |r| <= |rules|
  {
    if rules == [] then []
    else
      AllEvaluableTail(rules, snapshot);
      Emitted(ErrorOf(rules[0], snapshot)) + ErrorsInRuleOrder(rules[1..], snapshot)
  }

  lemma {:induction false} ErrorsInRuleOrderAppend(rules: seq<Rule>, last: Rule, snapshot: Snapshot)
    requires AllEvaluable(rules + [last], snapshot)
    ensures AllEvaluable(rules, snapshot)
    ensures last.field in snapshot ==> Evaluable(last, snapshot[last.field])
    ensures ErrorsInRuleOrder(rules + [last], snapshot) == ErrorsInRuleOrder(rules, snapshot) + Emitted(ErrorOf(last, snapshot))
  {
    assert forall i :: 0 <= i < |rules| ==> (rules + [last])[i] == rules[i];
    assert (rules + [last])[|rules|] == last;
    if rules != [] {
      assert (rules + [last])[1..] == rules[1..] + [last];
      AllEvaluableTail(rules + [last], snapshot);
      ErrorsInRuleOrderAppend(rules[1..], last, snapshot);
    } else {
      assert (rules + [last])[1..] == [];
    }
  }

  /**
   * `validateForm`'s error list, accumulated rule after rule, is the
   * front-to-back reading: one error per failing present rule, in rule order.
   */
  lemma {:induction false} EvaluateInRuleOrder(rules: seq<Rule>, snapshot: Snapshot)
    requires AllEvaluable(rules, snapshot)
    ensures Evaluate(rules, snapshot).errors == ErrorsInRuleOrder(rules, snapshot)
  {
    if rules != [] {
      var init, last := rules[..|rules| - 1], rules[|rules| - 1];
      assert rules == init + [last];
      ErrorsInRuleOrderAppend(init, last, snapshot);
      EvaluateStep(rules, snapshot);
      EvaluateInRuleOrder(init, snapshot);
    }
  }

  /**
   * The body of `validateForm`'s loop for a field that is in the form:
   * `fieldValid` starts true and each failed check clears it and sets
   * `errorMessage`, which yields the verdict `CheckField` defines.
   */
  method ValidateField(rule: Rule, value: Option<string>) returns (fieldValid: bool, errorMessage: string)
    requires Evaluable(rule, value)
    ensures fieldValid <==> CheckField(rule, value).None?
    ensures !fieldValid ==> CheckField(rule, value) == Some(errorMessage)
  {
    fieldValid := true;
    errorMessage := "";
    if rule.required && (value.None? || |Trim(value.value)| == 0) {
      fieldValid := false;
      errorMessage := rule.message;
    }
    if fieldValid && rule.pattern.Some? && !PatternTest(rule.pattern.value, value) {
      fieldValid := false;
      errorMessage := rule.message;
    }
    if fieldValid && rule.minLength > 0 && Utf16Length(Trim(value.value)) < rule.minLength {
      fieldValid := false;
      errorMessage := rule.message;
    }
  }

  /**
   * `validateForm`: walks the rules in order, skipping fields the form does
   * not have, and yields the verdict `Evaluate` defines.
   */
  method ValidateForm(rules: seq<Rule>, snapshot: Snapshot) returns (isValid: bool, errors: seq<FieldError>)
    requires AllEvaluable(rules, snapshot)
    ensures Verdict(isValid, errors) == Evaluate(rules, snapshot)
  {
    isValid := true;
    errors := [];
    for i := 0 to |rules|
      invariant Verdict(isValid, errors) == Evaluate(rules[..i], snapshot)
    {
      var rule := rules[i];
      assert rules[..i + 1][..i] == rules[..i];
      ghost var before := Verdict(isValid, errors);
      assert Evaluate(rules[..i + 1], snapshot) ==
        match ErrorOf(rule, snapshot)
        case None => before
        case Some(e) => Verdict(false, before.errors + [e]);
      if rule.field !in snapshot {
        continue;
      }
      var fieldValid, errorMessage := ValidateField(rule, snapshot[rule.field]);
      if !fieldValid {
        isValid := false;
        errors := errors + [FieldError(rule.field, errorMessage)];
      }
    }
    assert rules[..|rules|] == rules;
  }

  /** `" a "` is three characters long but trims to one, so the name rule rejects it. */
  lemma PaddedNameFails()
    ensures CheckField(ContactRules[0], Some(" a ")) == Some("Please enter your full name")
  {
    var v := " a ";
    assert v[1..] == "a ";
    assert TrimStart(v) == "a ";
    assert "a "[..1] == "a";
    assert TrimEnd("a ") == "a";
    assert Utf16Length("a") == 1;
    assert Utf16Length(Trim(v)) == 1;
  }

  /** `a@b.co` matches the email pattern. */
  lemma PlainAddressMatches()
    ensures MatchesEmail("a@b.co")
  {
    var s := "a@b.co";
    assert s[1..] == "@b.co";
    assert PartLength(s) == 1;
    var d := s[2..];
    assert d == "b.co" && d[1..] == ".co" && ".co"[1..] == "co" && "co"[1..] == "o" && "o"[1..] == [];
    assert PartLength(d) == 4;
    assert d[1..3] == ".c";
  }

  /** The same address with a leading space fails the email rule. */
  lemma PaddedEmailFails()
    ensures CheckField(ContactRules[1], Some(" a@b.co")) == Some("Please enter a valid email address")
  {
    var p := " a@b.co";
    assert !MatchesEmail(p) by {
      assert PartLength(p) == 0;
    }
    assert !Blank(Some(p)) by {
      TrimEmptyIffBlank(p);
      assert !IsWhitespace(p[1]);
    }
  }

  lemma BadIsNotAnEmail()
    ensures CheckField(ContactRules[1], Some("bad")) == Some(ContactRules[1].message)
  {
    assert PartLength("bad") == 3 by {
      assert "bad"[1..] == "ad" && "ad"[1..] == "d" && "d"[1..] == [];
    }
    assert !Blank(Some("bad")) by {
      TrimEmptyIffBlank("bad");
      assert !IsWhitespace("bad"[0]);
    }
  }

  lemma HiIsTooShort()
    ensures CheckField(ContactRules[2], Some("hi")) == Some(ContactRules[2].message)
  {
    var v := "hi";
    assert !IsWhitespace(v[0]) && !IsWhitespace(v[1]);
    assert !Blank(Some(v)) by { TrimEmptyIffBlank(v); }
    TrimNoOp(v);
    assert forall k :: 0 <= k < |v| ==> v[k] as int < 0x1_0000;
    Utf16LengthBmp(v);
  }

  /** A verdict over three rules, spelled out. */
  lemma EvaluateThree(rules: seq<Rule>, snapshot: Snapshot, e0: FieldError, e1: FieldError, e2: FieldError)
    requires |rules| == 3 && AllEvaluable(rules, snapshot)
    requires ErrorOf(rules[0], snapshot) == Some(e0)
    requires ErrorOf(rules[1], snapshot) == Some(e1)
    requires ErrorOf(rules[2], snapshot) == Some(e2)
    ensures Evaluate(rules, snapshot) == Verdict(false, [e0, e1, e2])
  {
    assert rules[..1][..0] == [] && rules[..1][0] == rules[0];
    assert Evaluate(rules[..1], snapshot) == Verdict(false, [e0]);
    assert rules[..2][..1] == rules[..1] && rules[..2][1] == rules[1];
    assert Evaluate(rules[..2], snapshot) == Verdict(false, [e0, e1]);
    assert rules[..3][..2] == rules[..2] && rules[..3] == rules;
  }

  /** An empty name, a malformed address and a short message: three errors, in rule order. */
  lemma ThreeFieldsFail()
    ensures Evaluate(ContactRules, map["name" := Some(""), "email" := Some("bad"), "message" := Some("hi")])
         == Verdict(false, [
              FieldError("name", "Please enter your full name"),
              FieldError("email", "Please enter a valid email address"),
              FieldError("message", "Please tell us more about your project (minimum 10 characters)")])
  {
    var snapshot := map["name" := Some(""), "email" := Some("bad"), "message" := Some("hi")];
    BadIsNotAnEmail();
    HiIsTooShort();
    EvaluateThree(ContactRules, snapshot,
      FieldError("name", "Please enter your full name"),
      FieldError("email", "Please enter a valid email address"),
      FieldError("message", "Please tell us more about your project (minimum 10 characters)"));
  }
}
