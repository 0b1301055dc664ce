/** The three field rules of the lead forms (`NAME_REGEX`, `EMAIL_REGEX`,
    `PHONE_REGEX` and the way `customValidateForm` applies them), written as
    explicit predicates instead of regular expressions. */
module Validation {
  import opened Text

  // ---------------------------------------------------------------- name

  /** One character of the class `[A-Za-z\s\.]`. */
  predicate IsNameChar(c: char) {
    ('A' <= c <= 'Z') || ('a' <= c <= 'z') || IsSpace(c) || c == '.'
  }

  /** `NAME_REGEX.test(s)` for `/^[A-Za-z\s\.]+$/`: one or more name
      characters, so never a digit nor an `'@'`. */
  predicate NameMatches(s: string)
    ensures NameMatches(s) ==> s != [] && forall i :: 0 <= i < |s| ==> !IsDigit(s[i]) && s[i] != '@'
  {
    |s| > 0 && forall i :: 0 <= i < |s| ==> IsNameChar(s[i])
  }

  /** Trimming only drops whitespace, which the name class admits: the trimmed
      value is made of name characters exactly when the value is. */
  lemma TrimNameChars(s: string)
    ensures (forall i :: 0 <= i < |Trim(s)| ==> IsNameChar(Trim(s)[i])) <==>
            (forall i :: 0 <= i < |s| ==> IsNameChar(s[i]))
  {
    var a := LeadEnd(s, 0);
    var b := TrailStart(s, a, |s|);
    var t := s[a..b];
    assert Trim(s) == t;
    assert forall i :: 0 <= i < |t| ==> t[i] == s[a + i];
    assert forall i :: 0 <= i < |s| && (i < a || b <= i) ==> IsSpace(s[i]);
    if forall i :: 0 <= i < |t| ==> IsNameChar(t[i]) {
      forall i | 0 <= i < |s| && a <= i < b ensures IsNameChar(s[i]) {
        assert t[i - a] == s[i];
      }
    }
  }

  /** The name rule as `customValidateForm` applies it: the trimmed value is
      non-empty and matches the name pattern. Since trimming only drops
      whitespace, that is: every character of the value is a name character
      and not all of them are whitespace. */
  predicate NameOk(value: string)
    ensures NameOk(value) <==> (forall i :: 0 <= i < |value| ==> IsNameChar(value[i])) && !AllSpace(value)
  {
    TrimNameChars(value);
    TrimBlank(value);
    var t := Trim(value);
    t != "" && NameMatches(t)
  }

  /** A name holding any character outside `[A-Za-z\s.]` (a digit, say) is rejected. */
  lemma NameRejectsForeign(value: string, i: nat)
    requires i < |value| && !IsNameChar(value[i])
    ensures !NameOk(value)
  {
    TrimKeeps(value, i);
  }

  lemma NameRejectsDigit(value: string, i: nat)
    requires i < |value| && IsDigit(value[i])
    ensures !NameOk(value)
  {
    NameRejectsForeign(value, i);
  }

  /** A blank name (empty or whitespace only) is rejected. */
  lemma NameRejectsBlank(value: string)
    requires AllSpace(value)
    ensures !NameOk(value)
  {
    TrimBlank(value);
  }

  // --------------------------------------------------------------- email

  /** One character of the class `[^\s@]`. */
  predicate IsEmailAtom(c: char) {
    !IsSpace(c) && c != '@'
  }

  /** A run of one or more `[^\s@]` characters. */
  predicate IsAtomRun(s: string) {
    |s| > 0 && forall i :: 0 <= i < |s| ==> IsEmailAtom(s[i])
  }

  /** The position of the first `'@'` in `s`, if any. */
  function IndexOfAt(s: string): (r: Option<nat>)
    ensures r.None? <==> '@' !in s
    ensures r.Some? ==> r.value < |s| && s[r.value] == '@' && '@' !in s[..r.value]
  {
    if s == [] then None
    else if s[0] == '@' then Some(0)
    else
      match IndexOfAt(s[1..])
      case None => None
      case Some(j) =>
        assert s[..j + 1] == [s[0]] + s[1..][..j];
        Some(j + 1)
  }

  /** The part after the `'@'`: `[^\s@]+\.[^\s@]+`, i.e. all atoms with a dot
      that is neither its first nor its last character. */
  predicate DomainMatches(d: string) {
    |d| >= 3 && (forall i :: 0 <= i < |d| ==> IsEmailAtom(d[i])) && '.' in d[1..|d| - 1]
  }

  /** `EMAIL_REGEX.test(s)`, computed by splitting at the first `'@'`. An
      address has an `'@'`, at least five characters, and no whitespace at
      either end (so trimming would leave it as it is). */
  predicate EmailMatches(s: string)
    ensures EmailMatches(s) ==> '@' in s && 5 <= |s| && !IsSpace(s[0]) && !IsSpace(s[|s| - 1])
  {
    match IndexOfAt(s)
    case None => false
    case Some(at) => IsAtomRun(s[..at]) && DomainMatches(s[at + 1..]) && (AddressEnds(s, at); true)
  }

  /** A local part and a domain around an `'@'` make no whitespace at either end. */
  lemma AddressEnds(s: string, at: nat)
    requires at < |s| && s[at] == '@' && IsAtomRun(s[..at]) && DomainMatches(s[at + 1..])
    ensures '@' in s && 5 <= |s| && !IsSpace(s[0]) && !IsSpace(s[|s| - 1])
  {
    assert s[0] == s[..at][0];
    assert s[|s| - 1] == s[at + 1..][|s| - at - 2];
  }

  /** `s` splits as `local "@" host "." tld` at positions `at` and `dot`,
      each part a run of `[^\s@]`: one way for `/^[^\s@]+@[^\s@]+\.[^\s@]+$/` to match. */
  predicate EmailSplit(s: string, at: int, dot: int) {
    0 < at < dot < |s| - 1 && s[at] == '@' && s[dot] == '.'
    && IsAtomRun(s[..at]) && IsAtomRun(s[at + 1..dot]) && IsAtomRun(s[dot + 1..])
  }

  /** The regular expression, read literally: SOME split exists. */
  ghost predicate EmailShape(s: string) {
    exists at, dot :: EmailSplit(s, at, dot)
  }

  /** The scanning definition matches exactly the strings of the email shape. */
  lemma EmailMatchesIffShape(s: string)
    ensures EmailMatches(s) <==> EmailShape(s)
  {
    if EmailMatches(s) {
      var at := IndexOfAt(s).value;
      var d := s[at + 1..];
      var k :| 1 <= k < |d| - 1 && d[k] == '.';
      var dot := at + 1 + k;
      assert s[at + 1..dot] == d[..k];
      assert s[dot + 1..] == d[k + 1..];
      assert EmailSplit(s, at, dot);
    }
    if EmailShape(s) {
      var at, dot :| EmailSplit(s, at, dot);
      assert s[..at][..at] == s[..at];
      assert '@' !in s[..at] by {
        forall i | 0 <= i < at ensures s[..at][i] != '@' {
          assert IsEmailAtom(s[..at][i]);
        }
      }
      assert IndexOfAt(s) == Some(at);
      var d := s[at + 1..];
      forall i | 0 <= i < |d| ensures IsEmailAtom(d[i]) {
        var p := at + 1 + i;
        if p < dot {
          assert d[i] == s[at + 1..dot][i];
        } else if p > dot {
          assert d[i] == s[dot + 1..][p - dot - 1];
        }
      }
      assert d[1..|d| - 1][dot - at - 2] == '.';
    }
  }

  /** The email rule: a blank trimmed value is accepted; anything else must
      have the email shape. */
  predicate EmailOk(value: string)
    ensures AllSpace(value) ==> EmailOk(value)
    ensures EmailOk(value) ==> AllSpace(value) || '@' in value
  {
    TrimBlank(value);
    var t := Trim(value);
    if t == "" then true
    else if EmailMatches(t) then TrimFrom(value, '@'); true
    else false
  }

  /** A blank email field is always accepted. */
  lemma EmailBlankOk(value: string)
    requires AllSpace(value)
    ensures EmailOk(value)
  {
    TrimBlank(value);
  }

  // --------------------------------------------------------------- phone

  /** `PHONE_REGEX.test(s)` for `/^\d{7,15}$/`. */
  predicate PhoneMatches(s: string)
    ensures PhoneMatches(s) ==> Digits(s) == s
  {
    if 7 <= |s| <= 15 && AllDigits(s) then DigitsOfDigits(s); true else false
  }

  /** The phone rule: the digits of the value are non-empty and match the
      phone pattern; that is, there are 7 to 15 of them. */
  predicate PhoneOk(value: string)
    ensures PhoneOk(value) <==> 7 <= |Digits(value)| <= 15
  {
    var clean := Digits(value);
    clean != "" && PhoneMatches(clean)
  }

  // ----------------------------------------------------------- the form

  /** All three rules hold: what `customValidateForm` returns for a form it finds. */
  predicate LeadOk(name: string, email: string, phone: string)
    ensures LeadOk(name, email, phone) ==>
      && !AllSpace(name) && (AllSpace(email) || '@' in email) && 7 <= |Digits(phone)| <= 15
  {
    NameOk(name) && EmailOk(email) && PhoneOk(phone)
  }

  /** What the form check accepts, in the terms of the three patterns: the
      trimmed name is non-empty and made of `[A-Za-z\s.]`; the trimmed email is
      empty or has the shape of `EMAIL_REGEX`; the phone has 7 to 15 digits. */
  lemma LeadOkMeans(name: string, email: string, phone: string)
    ensures LeadOk(name, email, phone) <==>
      && Trim(name) != "" && (forall i :: 0 <= i < |Trim(name)| ==> IsNameChar(Trim(name)[i]))
      && (Trim(email) == "" || EmailShape(Trim(email)))
      && 7 <= |Digits(phone)| <= 15
  {
    EmailMatchesIffShape(Trim(email));
  }

  /** `"John Q. Public"` is a name: nothing to trim, every character allowed. */
  lemma NameAccepted()
    ensures NameOk("John Q. Public")
  {
    var j := "John Q. Public";
    TrimUntouched(j);
  }

  /** `"John Q. Public"` is a name and `"John5"` is not. */
  lemma NameExamples()
    ensures NameOk("John Q. Public") && !NameOk("John5")
  {
    NameAccepted();
    NameRejectsDigit("John5", 4);
  }

  lemma TrimmedExample()
    ensures Trim("a@b.co") == "a@b.co"
  {
    var e := "a@b.co";
    assert e[0] == 'a' && e[|e| - 1] == 'o';
    TrimUntouched(e);
  }

  lemma MatchedExample()
    ensures EmailMatches("a@b.co")
  {
    var e := "a@b.co";
    assert EmailSplit(e, 1, 3) by {
      assert e[..1] == "a" && e[2..3] == "b" && e[4..] == "co";
    }
    EmailMatchesIffShape(e);
  }

  /** `"a@b.co"` is an acceptable email (a blank one always is: `EmailBlankOk`). */
  lemma EmailExampleOk()
    ensures EmailOk("a@b.co")
  {
    TrimmedExample();
    MatchedExample();
  }

  /** `"not-an-email"`, which has no `'@'`, is not an acceptable email. */
  lemma EmailExampleRejected()
    ensures !EmailOk("not-an-email")
  {
    var e := "not-an-email";
    TrimUntouched(e);
    assert forall i :: 0 <= i < |e| ==> e[i] != '@';
    assert '@' !in e;
  }

  /** `"9123 4567"` cleans to eight digits and passes; `"12-34-56"` has six and fails. */
  lemma PhoneExamples()
    ensures PhoneOk("9123 4567") && !PhoneOk("12-34-56")
  {
    CleanExample();
  }
}
