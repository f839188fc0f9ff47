/** Which user codes are right (server/src/middleware/idp/session.rs): the laws of the comparison. */
module SessionCodes {
  import opened Prelude
  import opened SessionStore

  lemma CleanUnfolds(a: string)
    requires |a| > 0
    ensures Clean(a) == CleanChar(a[0]) + Clean(a[1..])
  {
  }

  lemma CleanOfEmpty(a: string)
    requires |a| == 0
    ensures Clean(a) == ""
  {
  }

  lemma {:induction false} CleanAppend(a: string, b: string)
    ensures Clean(a + b) == Clean(a) + Clean(b)
  {
    hide Clean, CleanChar;
    if |a| == 0 {
      CleanOfEmpty(a);
      assert a + b == b;
    } else {
      CleanAppend(a[1..], b);
      CleanUnfolds(a);
      CleanUnfolds(a + b);
      assert (a + b)[1..] == a[1..] + b && (a + b)[0] == a[0];
      var head, x, y := CleanChar(a[0]), Clean(a[1..]), Clean(b);
      assert head + (x + y) == (head + x) + y;
    }
  }

  lemma {:induction false} CleanDashFree(a: string)
    requires '-' !in a
    ensures |Clean(a)| == |a| && forall i :: 0 <= i < |a| ==> Clean(a)[i] == UpperChar(a[i])
  {
    hide Clean, UpperChar;
    if |a| == 0 {
      CleanOfEmpty(a);
    } else {
      CleanDashFree(a[1..]);
      CleanUnfolds(a);
      assert a[0] in a;
      assert Clean(a) == [UpperChar(a[0])] + Clean(a[1..]);
    }
  }

  /** Some character is not white space. */
  ghost predicate NotBlank(code: string) {
    exists i :: 0 <= i < |code| && code[i] != ' ' && code[i] != '\t' && code[i] != '\n' && code[i] != '\r'
  }

  /** Codes without dashes match exactly when they differ in ASCII case only and one is given. */
  lemma MatchIff(a: string, b: string)
    requires '-' !in a && '-' !in b
    ensures CodeMatches(Some(a), b) <==> NotBlank(a) && EqualIgnoringCase(a, b)
    ensures !CodeMatches(None, b)
  {
    CleanDashFree(a);
    CleanDashFree(b);
    forall i | 0 <= i < |a| && i < |b| ensures UpperChar(a[i]) == UpperChar(b[i]) <==> SameLetter(a[i], b[i]) {
      CaseFolds(a[i], b[i]);
    }
    hide Clean, UpperChar, SameLetter;
    if EqualIgnoringCase(a, b) {
      assert Clean(a) == Clean(b);
    } else if |a| == |b| {
      var i :| 0 <= i < |a| && !SameLetter(a[i], b[i]);
      assert Clean(a)[i] != Clean(b)[i];
    }
  }

  /** A dash anywhere in the code given, or in the code expected, changes no answer. */
  lemma DashesIgnored(a1: string, a2: string, b1: string, b2: string, given: Option<string>)
    requires NotBlank(a1 + a2)
    ensures CodeMatches(Some(a1 + "-" + a2), b1) <==> CodeMatches(Some(a1 + a2), b1)
    ensures CodeMatches(given, b1 + "-" + b2) <==> CodeMatches(given, b1 + b2)
  {
    DashDropped(a1, a2);
    DashDropped(b1, b2);
    var dashed := a1 + "-" + a2;
    assert dashed[|a1|] == '-';
    assert !IsBlank(dashed);
    assert !IsBlank(a1 + a2);
    hide Clean;
  }

  lemma DashDropped(a: string, b: string)
    ensures Clean(a + "-" + b) == Clean(a + b)
  {
    CleanDash("-");
    hide Clean;
    CleanAppend(a + "-", b);
    CleanAppend(a, "-");
    CleanAppend(a, b);
    assert Clean(a) + "" == Clean(a);
  }

  lemma CleanDash(dash: string)
    requires dash == "-"
    ensures Clean(dash) == ""
  {
    assert dash[1..] == "";
  }

  /** One code that is refused, and one accepted in another spelling. */
  lemma SomeCodes()
    ensures !CodeMatches(Some("ZZZZZZ"), "ABC123") && !CodeMatches(Some(" "), "ABC123") && !CodeMatches(Some(""), "")
    ensures CodeMatches(Some("abc-123"), "ABC123")
  {
    RefusedCodes("ZZZZZZ", "ABC123");
    MatchIff("", "");
    LowerCaseCode("abc123", "ABC123");
    assert "abc" + "123" == "abc123" && "abc" + "-" + "123" == "abc-123";
    hide CodeMatches, NotBlank;
    DashesIgnored("abc", "123", "ABC123", "", None);
  }

  lemma RefusedCodes(given: string, expected: string)
    requires given == "ZZZZZZ" && expected == "ABC123"
    ensures !CodeMatches(Some(given), expected) && !CodeMatches(Some(" "), expected)
  {
    MatchIff(given, expected);
    MatchIff(" ", expected);
    assert !SameLetter(given[0], expected[0]);
    hide CodeMatches, SameLetter;
  }

  lemma LowerCaseCode(given: string, expected: string)
    requires given == "abc123" && expected == "ABC123"
    ensures CodeMatches(Some(given), expected) && NotBlank(given)
  {
    assert given[0] == 'a' && NotBlank(given);
    assert forall i :: 0 <= i < 6 ==> SameLetter(given[i], expected[i]);
    MatchIff(given, expected);
    hide CodeMatches, SameLetter;
  }

  /** The claims a session hands out: those confirmed, under the session's audience when it has one. */
  lemma AudienceWins(claims: Claims, aud: Option<string>)
    ensures var c := WithAudience(claims, aud);
            && c.aud == (if aud.Some? then aud else claims.aud)
            && c.sub == claims.sub && c.iss == claims.iss && c.exp == claims.exp && c.oids == claims.oids && c.jti == claims.jti
  {
  }
}
