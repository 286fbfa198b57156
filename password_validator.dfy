/** The client-side password policy (frontend/src/utils/password-validator.ts).
    Every rule is checked independently and every failing rule contributes its
    own message, in a fixed order. */
module PasswordValidator {
  import opened Tables

  datatype Rule = TooShort | TooLong | NoLowercase | NoDigit | NoSymbol

  const MinPasswordLength := 8
  const MaxPasswordLength := 128

  /** The rules in the order the validator checks them. */
  const RuleOrder: seq<Rule> := [TooShort, TooLong, NoLowercase, NoDigit, NoSymbol]

  function Rank(r: Rule): int {
    match r
    case TooShort => 0
    case TooLong => 1
    case NoLowercase => 2
    case NoDigit => 3
    case NoSymbol => 4
  }

  /** The characters of the class `[!@#$%^&*()_+\-=\[\]{};':"\\|,.<>\/?]`. */
  predicate IsSymbol(c: char) {
    || c == '!' || c == '@' || c == '#' || c == '$' || c == '%' || c == '^' || c == '&'
    || c == '*' || c == '(' || c == ')' || c == '_' || c == '+' || c == '-' || c == '='
    || c == '[' || c == ']' || c == '{' || c == '}' || c == ';' || c == '\'' || c == ':'
    || c == '"' || c == '\\' || c == '|' || c == ',' || c == '.' || c == '<' || c == '>'
    || c == '/' || c == '?'
  }

  predicate IsLowerAscii(c: char) { 'a' <= c <= 'z' }
  predicate IsAsciiDigit(c: char) { '0' <= c <= '9' }

  predicate HasLowercase(password: string) { exists i | 0 <= i < |password| :: IsLowerAscii(password[i]) }
  predicate HasDigit(password: string) { exists i | 0 <= i < |password| :: IsAsciiDigit(password[i]) }
  predicate HasSymbol(password: string) { exists i | 0 <= i < |password| :: IsSymbol(password[i]) }

  /** Whether `password` breaks `rule`. */
  predicate Violates(password: string, rule: Rule) {
    match rule
    case TooShort => |password| < MinPasswordLength
    case TooLong => |password| > MaxPasswordLength
    case NoLowercase => !HasLowercase(password)
    case NoDigit => !HasDigit(password)
    case NoSymbol => !HasSymbol(password)
  }

  function BrokenBy(password: string): Rule -> bool {
    r => Violates(password, r)
  }

  /** The broken rules, in check order: the reference the validator is held to. */
  function ViolatedRules(password: string): seq<Rule> {
    Filter(RuleOrder, BrokenBy(password))
  }

  function Message(rule: Rule): string {
    match rule
    case TooShort => "비밀번호는 최소 8자 이상이어야 합니다."
    case TooLong => "비밀번호는 최대 128자까지 가능합니다."
    case NoLowercase => "소문자를 1개 이상 포함해야 합니다."
    case NoDigit => "숫자를 1개 이상 포함해야 합니다."
    case NoSymbol => "특수문자를 1개 이상 포함해야 합니다."
  }

  function Messages(rules: seq<Rule>): (ms: seq<string>)
    ensures |ms| == |rules|
    ensures forall k | 0 <= k < |rules| :: ms[k] == Message(rules[k])
  {
    if rules == [] then [] else [Message(rules[0])] + Messages(rules[1..])
  }

  datatype PasswordValidationResult = PasswordValidationResult(isValid: bool, errors: seq<string>)

  /** `validatePassword`: pushes one message per failing check, in check order. */
  method ValidatePassword(password: string) returns (result: PasswordValidationResult)
    ensures result.errors == Messages(ViolatedRules(password))
    ensures result.isValid <==> result.errors == []
  {
    var errors: seq<string> := [];
    ghost var broken: seq<Rule> := [];
    if |password| < MinPasswordLength {
      MessagesAppend(broken, TooShort);
      errors, broken := errors + [Message(TooShort)], broken + [TooShort];
    }
    assert broken == IfBroken(password, TooShort) && errors == Messages(broken);
    if |password| > MaxPasswordLength {
      MessagesAppend(broken, TooLong);
      errors, broken := errors + [Message(TooLong)], broken + [TooLong];
    }
    assert broken == IfBroken(password, TooShort) + IfBroken(password, TooLong);
    assert errors == Messages(broken);
    if !HasLowercase(password) {
      MessagesAppend(broken, NoLowercase);
      errors, broken := errors + [Message(NoLowercase)], broken + [NoLowercase];
    }
    assert broken == IfBroken(password, TooShort) + IfBroken(password, TooLong) + IfBroken(password, NoLowercase);
    assert errors == Messages(broken);
    if !HasDigit(password) {
      MessagesAppend(broken, NoDigit);
      errors, broken := errors + [Message(NoDigit)], broken + [NoDigit];
    }
    assert broken == IfBroken(password, TooShort) + IfBroken(password, TooLong) + IfBroken(password, NoLowercase)
                   + IfBroken(password, NoDigit);
    assert errors == Messages(broken);
    if !HasSymbol(password) {
      MessagesAppend(broken, NoSymbol);
      errors, broken := errors + [Message(NoSymbol)], broken + [NoSymbol];
    }
    assert broken == IfBroken(password, TooShort) + IfBroken(password, TooLong) + IfBroken(password, NoLowercase)
                   + IfBroken(password, NoDigit) + IfBroken(password, NoSymbol);
    assert errors == Messages(broken);
    ViolatedRulesUnfold(password);
    result := PasswordValidationResult(|errors| == 0, errors);
  }

  /** The rule alone if the password breaks it, nothing otherwise. */
  function IfBroken(password: string, rule: Rule): seq<Rule> {
    if Violates(password, rule) then [rule] else []
  }

  lemma MessagesAppend(rules: seq<Rule>, r: Rule)
    ensures Messages(rules + [r]) == Messages(rules) + [Message(r)]
  {
  }

  lemma ViolatedRulesUnfold(password: string)
    ensures ViolatedRules(password)
         == IfBroken(password, TooShort) + IfBroken(password, TooLong) + IfBroken(password, NoLowercase)
          + IfBroken(password, NoDigit) + IfBroken(password, NoSymbol)
  {
    var p := BrokenBy(password);
    assert RuleOrder[1..] == [TooLong, NoLowercase, NoDigit, NoSymbol];
    assert RuleOrder[1..][1..] == [NoLowercase, NoDigit, NoSymbol];
    assert RuleOrder[1..][1..][1..] == [NoDigit, NoSymbol];
    assert RuleOrder[1..][1..][1..][1..] == [NoSymbol];
    assert RuleOrder[1..][1..][1..][1..][1..] == [];
  }

  /** Each rule is reported exactly when it is broken. */
  lemma ReportsEveryBrokenRule(password: string, rule: Rule)
    ensures rule in ViolatedRules(password) <==> Violates(password, rule)
  {
    FilterMembers(RuleOrder, BrokenBy(password));
    assert rule in RuleOrder;
  }

  /** The reported rules appear in check order, each at most once. */
  lemma ReportedInCheckOrder(password: string)
    ensures StrictlyIncreasing(ViolatedRules(password), Rank)
  {
    assert StrictlyIncreasing(RuleOrder, Rank) by {
      assert forall k | 0 <= k < |RuleOrder| :: Rank(RuleOrder[k]) == k;
    }
    FilterKeepsIncreasing(RuleOrder, BrokenBy(password), Rank);
  }

  /** The validator reports nothing exactly when every rule holds. */
  lemma ValidIffAllRulesHold(password: string)
    ensures ViolatedRules(password) == []
        <==> MinPasswordLength <= |password| <= MaxPasswordLength
             && HasLowercase(password) && HasDigit(password) && HasSymbol(password)
  {
    ViolatedRulesUnfold(password);
  }

  /** Too short and too long exclude each other, so at most four messages come back. */
  lemma AtMostFourErrors(password: string)
    ensures !(TooShort in ViolatedRules(password) && TooLong in ViolatedRules(password))
    ensures |Messages(ViolatedRules(password))| <= 4
  {
    ViolatedRulesUnfold(password);
    ReportsEveryBrokenRule(password, TooShort);
    ReportsEveryBrokenRule(password, TooLong);
    var lengthRules := IfBroken(password, TooShort) + IfBroken(password, TooLong);
    assert |lengthRules| <= 1;
    assert |ViolatedRules(password)| == |lengthRules| + |IfBroken(password, NoLowercase)|
      + |IfBroken(password, NoDigit)| + |IfBroken(password, NoSymbol)|;
  }

  /** Only ASCII `a`-`z` satisfies the lowercase rule; backtick and tilde are not symbols. */
  lemma CharacterClassesAreNarrow(password: string)
    requires forall i | 0 <= i < |password| :: 'A' <= password[i] <= 'Z' || password[i] == '`' || password[i] == '~'
    ensures NoLowercase in ViolatedRules(password)
    ensures NoSymbol in ViolatedRules(password)
    ensures NoDigit in ViolatedRules(password)
  {
    ReportsEveryBrokenRule(password, NoLowercase);
    ReportsEveryBrokenRule(password, NoSymbol);
    ReportsEveryBrokenRule(password, NoDigit);
    assert !IsSymbol('`') && !IsSymbol('~');
  }

  /** Three passwords checked by hand: "short1!" is only too short, "alllowercase1"
      only lacks a symbol, and "Password123!" passes. */
  lemma ExampleTooShort()
    ensures ViolatedRules("short1!") == [TooShort]
  {
    ViolatedRulesUnfold("short1!");
    assert IsLowerAscii("short1!"[0]) && IsAsciiDigit("short1!"[5]) && IsSymbol("short1!"[6]);
  }

  lemma ExampleNoSymbol()
    ensures ViolatedRules("alllowercase1") == [NoSymbol]
  {
    ViolatedRulesUnfold("alllowercase1");
    assert IsLowerAscii("alllowercase1"[0]) && IsAsciiDigit("alllowercase1"[12]);
    forall i | 0 <= i < 13 ensures !IsSymbol("alllowercase1"[i]) {
      assert 'a' <= "alllowercase1"[i] <= 'z' || "alllowercase1"[i] == '1';
    }
  }

  lemma ExampleValid()
    ensures ViolatedRules("Password123!") == []
  {
    ViolatedRulesUnfold("Password123!");
    assert IsLowerAscii("Password123!"[1]) && IsAsciiDigit("Password123!"[8]) && IsSymbol("Password123!"[11]);
  }
}
