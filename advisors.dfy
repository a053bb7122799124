/** Advisors and the keyword classifier that turns an advisor's free-text
    decision into a vote (advisors.py). */
module Advisors {

  /** An advisor of the panel: a name and a strategy label such as
      "Aggressive"; nothing else. */
  datatype Advisor = Advisor(name: string, strategy: string)

  /** The structured answer a decision maker gives: its reasoning and its
      decision, both free text. */
  datatype Response = Response(reasoning: string, decision: string)

  /** The affirmative tokens, in the order the classifier tests them. */
  const Approve: string := "approve"
  const Accept: string := "accept"
  const Yes: string := "yes"

  /** Lower-casing of one character: ASCII capitals map to their small
      letter, every other character is kept. */
  function LowerChar(c: char): char {
    if 'A' <= c <= 'Z' then (c as int + 32) as char else c
  }

  /** An ASCII stand-in for `str.lower()`: every ASCII capital lower-cased,
      in place; other characters kept. */
  function ToLower(s: string): string {
    seq(|s|, i requires 0 <= i < |s| => LowerChar(s[i]))
  }

  /** Two strings that differ only in the case of their letters. */
  ghost predicate SameUpToCase(a: string, b: string) {
    |a| == |b| && forall i :: 0 <= i < |a| ==> LowerChar(a[i]) == LowerChar(b[i])
  }

  /** `t` occurs in `s` starting at position `i`. */
  ghost predicate OccursAt(s: string, t: string, i: int) {
    0 <= i && i + |t| <= |s| && s[i..i + |t|] == t
  }

  /** Python's `t in s` on strings, as a definition: some occurrence exists. */
  ghost predicate HasSubstring(s: string, t: string) {
    exists i :: OccursAt(s, t, i)
  }

  /** The substring test as a left-to-right scan: `t` is a prefix of `s` or
      occurs in the rest of `s`. */
  predicate Contains(s: string, t: string)
    decreases |s|
  {
    if |s| < |t| then false
    else s[..|t|] == t || (s != [] && Contains(s[1..], t))
  }

  /** The scan finds `t` exactly when `t` occurs somewhere in `s`. */
  lemma {:induction false} ContainsIffHasSubstring(s: string, t: string)
    ensures Contains(s, t) <==> HasSubstring(s, t)
    decreases |s|
  {
    if |s| < |t| {
    } else if s[..|t|] == t {
      assert OccursAt(s, t, 0);
    } else {
      ContainsIffHasSubstring(s[1..], t);
      if HasSubstring(s[1..], t) {
        var i :| OccursAt(s[1..], t, i);
        assert s[i + 1..i + 1 + |t|] == s[1..][i..i + |t|];
        assert OccursAt(s, t, i + 1);
      }
      if HasSubstring(s, t) {
        var i :| OccursAt(s, t, i);
        assert i != 0;
        assert s[1..][i - 1..i - 1 + |t|] == s[i..i + |t|];
        assert OccursAt(s[1..], t, i - 1);
      }
    }
  }

  /** `parse_advisor_response`: the vote is approve exactly when the
      lower-cased decision contains "approve", "accept" or "yes" anywhere;
      anything else, the empty decision included, is a reject. The reasoning
      plays no part. */
  function ParseAdvisorResponse(response: Response): (vote: bool)
    ensures vote <==>
      HasSubstring(ToLower(response.decision), Approve) ||
      HasSubstring(ToLower(response.decision), Accept) ||
      HasSubstring(ToLower(response.decision), Yes)
  {
    var decision := ToLower(response.decision);
    ContainsIffHasSubstring(decision, Approve);
    ContainsIffHasSubstring(decision, Accept);
    ContainsIffHasSubstring(decision, Yes);
    Contains(decision, Approve) || Contains(decision, Accept) || Contains(decision, Yes)
  }

  /** Classification ignores case and ignores the reasoning: two responses
      whose decisions differ only in letter case get the same vote. */
  lemma CaseInsensitive(a: Response, b: Response)
    requires SameUpToCase(a.decision, b.decision)
    ensures ParseAdvisorResponse(a) == ParseAdvisorResponse(b)
  {
    assert ToLower(a.decision) == ToLower(b.decision);
  }

  /** Lower-casing the decision first does not change the vote. */
  lemma LowerCasedDecision(reasoning: string, decision: string)
    ensures ParseAdvisorResponse(Response(reasoning, ToLower(decision)))
         == ParseAdvisorResponse(Response(reasoning, decision))
  {
    CaseInsensitive(Response(reasoning, ToLower(decision)), Response(reasoning, decision));
  }

  /** An occurrence of `t` in `s` is still one after text is added on both
      sides. */
  lemma HasSubstringExtends(p: string, s: string, q: string, t: string)
    requires HasSubstring(s, t)
    ensures HasSubstring(p + s + q, t)
  {
    var i :| OccursAt(s, t, i);
    assert (p + s + q)[|p| + i..|p| + i + |t|] == s[i..i + |t|];
    assert OccursAt(p + s + q, t, |p| + i);
  }

  /** Lower-casing commutes with concatenation. */
  lemma ToLowerConcat(a: string, b: string)
    ensures ToLower(a + b) == ToLower(a) + ToLower(b)
  {
    assert forall i :: 0 <= i < |a + b| ==> ToLower(a + b)[i] == (ToLower(a) + ToLower(b))[i];
  }

  /** Monotonicity: a decision that approves still approves with any text
      added before or after it, whatever the reasoning. */
  lemma ApproveIsMonotone(r: string, d: string, r': string, p: string, q: string)
    requires ParseAdvisorResponse(Response(r, d))
    ensures ParseAdvisorResponse(Response(r', p + d + q))
  {
    ToLowerConcat(p, d);
    ToLowerConcat(p + d, q);
    var ld := ToLower(d);
    if HasSubstring(ld, Approve) {
      HasSubstringExtends(ToLower(p), ld, ToLower(q), Approve);
    } else if HasSubstring(ld, Accept) {
      HasSubstringExtends(ToLower(p), ld, ToLower(q), Accept);
    } else {
      HasSubstringExtends(ToLower(p), ld, ToLower(q), Yes);
    }
  }

  /** A string without capitals is its own lower-case form. */
  lemma ToLowerNoCapitals(s: string)
    requires forall c :: c in s ==> !('A' <= c <= 'Z')
    ensures ToLower(s) == s
  {
    assert forall i :: 0 <= i < |s| ==> s[i] in s;
  }

  /** Lower-casing a capitalised word touches only its first letter. */
  lemma ToLowerCapitalised(c: char, rest: string)
    requires forall c :: c in rest ==> !('A' <= c <= 'Z')
    ensures ToLower([c] + rest) == [LowerChar(c)] + rest
  {
    ToLowerNoCapitals(rest);
    ToLowerConcat([c], rest);
  }

  /** A token that starts with a character absent from `a` cannot occur in
      `a + b` other than inside `b`. */
  lemma SkipPrefix(a: string, b: string, t: string)
    requires t != [] && t[0] !in a
    requires HasSubstring(a + b, t)
    ensures HasSubstring(b, t)
  {
    var i :| OccursAt(a + b, t, i);
    assert (a + b)[i] == t[0];
    assert b[i - |a|..i - |a| + |t|] == (a + b)[i..i + |t|];
    assert OccursAt(b, t, i - |a|);
  }

  /** A decision that is exactly one of the tokens approves. */
  lemma TokenApproves(r: string, t: string)
    requires t == Approve || t == Accept || t == Yes
    ensures ParseAdvisorResponse(Response(r, t))
  {
    ToLowerNoCapitals(t);
    assert OccursAt(t, t, 0);
  }

  /** "Yes, I approve this trade" approves. */
  lemma AffirmativeExample(r: string)
    ensures ParseAdvisorResponse(Response(r, "Yes, I approve this trade"))
  {
    TokenApproves(r, Approve);
    ApproveIsMonotone(r, Approve, r, "Yes, I ", " this trade");
    assert "Yes, I " + Approve + " this trade" == "Yes, I approve this trade";
  }

  /** "No, this is too risky" rejects: none of the tokens occurs in it. */
  lemma NegativeExample(r: string)
    ensures !ParseAdvisorResponse(Response(r, "No, this is too risky"))
  {
    var no := "no, this is too risky";
    ToLowerCapitalised('N', no[1..]);
    assert ['N'] + no[1..] == "No, this is too risky";
    assert [LowerChar('N')] + no[1..] == no;
    NegativeExampleHasNoToken();
  }

  lemma NegativeExampleHasNoToken()
    ensures !HasSubstring("no, this is too risky", Approve)
    ensures !HasSubstring("no, this is too risky", Accept)
    ensures !HasSubstring("no, this is too risky", Yes)
  {
    var no := "no, this is too risky";
    if HasSubstring(no, Approve) { SkipPrefix(no, [], Approve); }
    if HasSubstring(no, Accept) { SkipPrefix(no, [], Accept); }
    if HasSubstring(no, Yes) {
      assert "no, this is too risk" + "y" == no;
      SkipPrefix("no, this is too risk", "y", Yes);
    }
  }

  /** The hedge "Not sure, maybe" rejects: no affirmative token, so the
      default applies. */
  lemma HedgeExample(r: string)
    ensures !ParseAdvisorResponse(Response(r, "Not sure, maybe"))
  {
    var hedge := "not sure, maybe";
    ToLowerCapitalised('N', hedge[1..]);
    assert ['N'] + hedge[1..] == "Not sure, maybe";
    assert [LowerChar('N')] + hedge[1..] == hedge;
    HedgeExampleHasNoToken();
  }

  lemma HedgeExampleHasNoToken()
    ensures !HasSubstring("not sure, maybe", Approve)
    ensures !HasSubstring("not sure, maybe", Accept)
    ensures !HasSubstring("not sure, maybe", Yes)
  {
    var hedge := "not sure, maybe";
    assert "not sure, m" + "aybe" == hedge;
    if HasSubstring(hedge, Approve) { SkipPrefix("not sure, m", "aybe", Approve); }
    if HasSubstring(hedge, Accept) { SkipPrefix("not sure, m", "aybe", Accept); }
    assert "not sure, ma" + "ybe" == hedge;
    assert "ybe"[..|Yes|] != Yes by { assert "ybe"[1] != Yes[1]; }
    if HasSubstring(hedge, Yes) { SkipPrefix("not sure, ma", "ybe", Yes); }
  }

  /** The empty decision rejects. */
  lemma EmptyDecisionRejects(r: string)
    ensures !ParseAdvisorResponse(Response(r, ""))
  {
  }

  /** Matching is by substring, not by word: "Disapprove", "unacceptable"
      and "I do not accept" all count as approve. */
  lemma SubstringMatchQuirk(r: string)
    ensures ParseAdvisorResponse(Response(r, "Disapprove"))
    ensures ParseAdvisorResponse(Response(r, "unacceptable"))
    ensures ParseAdvisorResponse(Response(r, "I do not accept"))
  {
    TokenApproves(r, Approve);
    TokenApproves(r, Accept);
    ApproveIsMonotone(r, Approve, r, "Dis", "");
    assert "Dis" + Approve + "" == "Disapprove";
    ApproveIsMonotone(r, Accept, r, "un", "able");
    assert "un" + Accept + "able" == "unacceptable";
    ApproveIsMonotone(r, Accept, r, "I do not ", "");
    assert "I do not " + Accept + "" == "I do not accept";
  }
}
