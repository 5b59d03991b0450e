/** The password rule as a regular expression over JavaScript strings. Both
    the shared `PASSWORD_RULE` and the `User.password` decorators anchor the
    pattern at both ends: four lookaheads ask for a lower-case letter, an
    upper-case letter, a digit and one of `@$!%*?&`, then the whole input must
    consist of characters from those classes, 8 to 20 of them in the shared
    rule, at least 8 on the entity, which adds a separate Length(8, 20)
    check. This module states the regex, shows the two rules agree, and gives
    a one-pass checker proved equal to the regex. */
module PasswordRule {
  import opened Common

  const MIN_LENGTH: nat := 8
  const MAX_LENGTH: nat := 20

  /** The special characters of the rule, `[@$!%*?&]`. */
  const SPECIALS: string := "@$!%*?&"

  datatype CharClass = Lower | Upper | Digit | Special

  predicate InClass(c: char, k: CharClass) {
    match k
    case Lower => 'a' <= c <= 'z'
    case Upper => 'A' <= c <= 'Z'
    case Digit => '0' <= c <= '9'   // `\d` without the `u` flag
    case Special => c in SPECIALS
  }

  /** `[A-Za-z\d@$!%*?&]`. */
  predicate Allowed(c: char) {
    InClass(c, Lower) || InClass(c, Upper) || InClass(c, Digit) || InClass(c, Special)
  }

  /** The characters `.` does not match. */
  predicate LineTerminator(c: char) {
    c == '\n' || c == '\r' || c == '\U{2028}' || c == '\U{2029}'
  }

  /** `(?=.*[k])` at the start of the input: some character of class `k` is
      reached through a prefix free of line terminators. */
  ghost predicate Lookahead(p: string, k: CharClass) {
    exists i :: 0 <= i < |p| && InClass(p[i], k) && forall j :: 0 <= j < i ==> !LineTerminator(p[j])
  }

  /** `[A-Za-z\d@$!%*?&]{min,max}$` from the start of the input. */
  ghost predicate Body(p: string, min: nat, max: Option<nat>) {
    && min <= |p|
    && (max.Some? ==> |p| <= max.value)
    && forall i :: 0 <= i < |p| ==> Allowed(p[i])
  }

  ghost predicate MatchesRegex(p: string, min: nat, max: Option<nat>) {
    && Lookahead(p, Lower)
    && Lookahead(p, Upper)
    && Lookahead(p, Digit)
    && Lookahead(p, Special)
    && Body(p, min, max)
  }

  /** The shared `PASSWORD_RULE`, quantifier {8,20}. */
  ghost predicate AppRule(p: string) {
    MatchesRegex(p, MIN_LENGTH, Some(MAX_LENGTH))
  }

  /** The entity decorators: IsNotEmpty, Length(8, 20) and the regex with {8,}. */
  ghost predicate EntityRule(p: string) {
    && p != ""
    && MIN_LENGTH <= |p| <= MAX_LENGTH
    && MatchesRegex(p, MIN_LENGTH, None)
  }

  ghost predicate Contains(p: string, k: CharClass) {
    exists i :: 0 <= i < |p| && InClass(p[i], k)
  }

  /** Once every character is allowed none is a line terminator, so each
      lookahead just asks that the class occurs somewhere. */
  lemma LookaheadIsContains(p: string, k: CharClass)
    requires forall i :: 0 <= i < |p| ==> Allowed(p[i])
    ensures Lookahead(p, k) <==> Contains(p, k)
  {
    if Contains(p, k) {
      var i :| 0 <= i < |p| && InClass(p[i], k);
      forall j | 0 <= j < i
        ensures !LineTerminator(p[j])
      {
        assert Allowed(p[j]);
      }
    }
  }

  /** The rule in plain words: 8 to 20 allowed characters with at least one
      lower-case letter, upper-case letter, digit and special character. */
  lemma AppRuleMeaning(p: string)
    ensures AppRule(p) <==>
      && MIN_LENGTH <= |p| <= MAX_LENGTH
      && (forall i :: 0 <= i < |p| ==> Allowed(p[i]))
      && Contains(p, Lower) && Contains(p, Upper) && Contains(p, Digit) && Contains(p, Special)
  {
    if forall i :: 0 <= i < |p| ==> Allowed(p[i]) {
      LookaheadIsContains(p, Lower);
      LookaheadIsContains(p, Upper);
      LookaheadIsContains(p, Digit);
      LookaheadIsContains(p, Special);
    }
  }

  /** The entity's {8,} regex under Length(8, 20) accepts exactly what the
      shared {8,20} rule accepts. */
  lemma RulesAgree(p: string)
    ensures AppRule(p) <==> EntityRule(p)
  {
  }

  /** Any character outside the allowed classes rejects the password. */
  lemma ForeignCharacterRejected(p: string, i: nat)
    requires i < |p| && !Allowed(p[i])
    ensures !AppRule(p) && !EntityRule(p)
  {
  }

  /** A 21-character password passes the entity's regex on its own; only the
      Length(8, 20) check rejects it. */
  lemma LengthCapIsNeeded()
    ensures MatchesRegex("Aa1@aaaaaaaaaaaaaaaaa", MIN_LENGTH, None)
    ensures !EntityRule("Aa1@aaaaaaaaaaaaaaaaa")
    ensures !AppRule("Aa1@aaaaaaaaaaaaaaaaa")
  {
    var p := "Aa1@aaaaaaaaaaaaaaaaa";
    assert |p| == 21;
    assert InClass(p[0], Upper) && InClass(p[1], Lower) && InClass(p[2], Digit) && InClass(p[3], Special);
    assert forall j :: 0 <= j < 3 ==> !LineTerminator(p[j]);
  }

  /** One pass over the characters, as a validator would run the rule. */
  method CheckPassword(p: string) returns (ok: bool)
    ensures ok <==> AppRule(p)
  {
    var lower, upper, digit, special, allowed := false, false, false, false, true;
    var i := 0;
    while i < |p|
      invariant 0 <= i <= |p|
      invariant lower <==> exists j :: 0 <= j < i && InClass(p[j], Lower)
      invariant upper <==> exists j :: 0 <= j < i && InClass(p[j], Upper)
      invariant digit <==> exists j :: 0 <= j < i && InClass(p[j], Digit)
      invariant special <==> exists j :: 0 <= j < i && InClass(p[j], Special)
      invariant allowed <==> forall j :: 0 <= j < i ==> Allowed(p[j])
    {
      var c := p[i];
      lower := lower || InClass(c, Lower);
      upper := upper || InClass(c, Upper);
      digit := digit || InClass(c, Digit);
      special := special || InClass(c, Special);
      allowed := allowed && Allowed(c);
      i := i + 1;
    }
    ok := MIN_LENGTH <= |p| <= MAX_LENGTH && allowed && lower && upper && digit && special;
    AppRuleMeaning(p);
  }
}
