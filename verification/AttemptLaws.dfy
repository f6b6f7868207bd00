/** Attempt numbers: which texts are numbers, and which number each one is. */
module AttemptLaws {
  import opened Outcomes
  import opened Decimal
  import opened Evidence

  predicate Digit(c: char) {
    '0' <= c <= '9'
  }

  /** An attempt is numbered when its member is empty, for local evidence, or a
      decimal numeral that does not begin with zero. */
  lemma AttemptIff(m: map<string, string>)
    ensures RunAttempt(m).Some? <==>
            "GITHUB_RUN_ATTEMPT" in m &&
            var s := m["GITHUB_RUN_ATTEMPT"];
            s == "" || (s[0] != '0' && forall i | 0 <= i < |s| :: Digit(s[i]))
  {
  }

  function Attempt(m: map<string, string>, s: string): Option<nat> {
    RunAttempt(m["GITHUB_RUN_ATTEMPT" := s])
  }

  lemma AttemptOfText(m: map<string, string>, s: string)
    ensures Attempt(m, s) ==
            if s == [] then Some(0) else if AllDigits(s) && s[0] != '0' then Some(DecimalValue(s)) else None
  {
    assert Get(m["GITHUB_RUN_ATTEMPT" := s], "GITHUB_RUN_ATTEMPT") == Some(s);
  }

  /** The empty text is zero; one digit is its value; and a further digit is worth
      one while those before it are worth ten times as much. */
  lemma AttemptValue(m: map<string, string>, s: string, d: char)
    requires Digit(d) && Attempt(m, s + [d]).Some?
    ensures Attempt(m, "") == Some(0) && Attempt(m, s).Some?
    ensures Attempt(m, s + [d]).value == 10 * Attempt(m, s).value + (d as int - '0' as int)
  {
    AttemptOfText(m, "");
    AttemptOfText(m, s);
    AttemptOfText(m, s + [d]);
    DigitsAppend(s, d);
  }

  lemma DigitsAppend(s: string, d: char)
    requires Digit(d)
    ensures AllDigits(s + [d]) <==> AllDigits(s)
    ensures AllDigits(s) ==> DecimalValue(s + [d]) == 10 * DecimalValue(s) + (d as int - '0' as int)
    ensures s != [] ==> (s + [d])[0] == s[0]
  {
    var t := s + [d];
    assert t[..|t| - 1] == s && t[|t| - 1] == d;
    assert forall i | 0 <= i < |s| :: s[i] == t[i];
  }

  /** A printed number has no leading zero and the value it stands for. */
  lemma {:induction false} PrintedMeaning(n: nat)
    ensures |PrintNat(n)| > 1 ==> PrintNat(n)[0] != '0'
    ensures n < 10 ==> PrintNat(n) == [('0' as int + n) as char]
    ensures n >= 10 ==> PrintNat(n) == PrintNat(n / 10) + [('0' as int + n % 10) as char]
  {
    if n >= 10 {
      PrintedMeaning(n / 10);
      LeadingDigit(n / 10);
    }
  }

  lemma {:induction false} LeadingDigit(n: nat)
    requires n > 0
    ensures PrintNat(n)[0] != '0'
  {
    if n >= 10 {
      LeadingDigit(n / 10);
      assert PrintNat(n)[0] == PrintNat(n / 10)[0];
    }
  }
}
