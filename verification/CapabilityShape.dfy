// Which scopes are exclusions and which texts may be principals (crates/ikigai-core/src/capability.rs:
// 128-204 and 240-330), stated of the texts.

module CapabilityShapes {
  import opened Wrappers
  import opened Text
  import opened Utf8
  import opened ContractIris
  import opened Capabilities
  import opened CapabilityChains

  // A lower-case letter or a digit, then those, underscores and hyphens.
  predicate WordText(s: string) {
    && s != "" && s[0] != '_' && s[0] != '-'
    && forall k | 0 <= k < |s| :: 'a' <= s[k] <= 'z' || '0' <= s[k] <= '9' || s[k] == '_' || s[k] == '-'
  }

  lemma WordIff(s: string)
    ensures IsWord(s) <==> WordText(s)
  {
    if s != "" && WordText(s) {
      assert WordStart(s[0]);
    }
  }

  // `urn:cap:`, a word, and a dashed rule with nothing or one word before it.
  ghost predicate Excludes(scope: string, family: string, rule: string) {
    WordText(family) && scope == "urn:cap:" + (family + (":" + ("-" + rule)))
  }

  ghost predicate ExcludesUnder(scope: string, family: string, qualifier: string, rule: string) {
    WordText(family) && WordText(qualifier)
    && scope == "urn:cap:" + (family + (":" + (qualifier + (":" + ("-" + rule)))))
  }

  ghost predicate Exclusion(scope: string) {
    (exists family, rule :: Excludes(scope, family, rule))
    || exists family, qualifier, rule :: ExcludesUnder(scope, family, qualifier, rule)
  }

  lemma SplitRejoins(s: string)
    requires SplitOnce(s, ':').Some?
    ensures s == SplitOnce(s, ':').value.0 + (":" + SplitOnce(s, ':').value.1)
  {
  }

  lemma DashedIs(s: string)
    requires Dashed(s)
    ensures s == "-" + s[1..]
  {
    assert s == [s[0]] + s[1..];
  }

  // Exactly those scopes are exclusions.
  lemma IsDenyIff(scope: string)
    ensures IsDeny(scope) <==> Exclusion(scope)
  {
    if IsDeny(scope) {
      DenyIsExclusion(scope);
    }
    if family, rule :| Excludes(scope, family, rule) {
      var after := "-" + rule;
      WordIff(family);
      DenyIs(family + (":" + after));
      SplitWord(family, after);
    }
    if family, qualifier, rule :| ExcludesUnder(scope, family, qualifier, rule) {
      UnderIsDeny(family, qualifier, rule);
    }
  }

  lemma UnderIsDeny(family: string, qualifier: string, rule: string)
    requires WordText(family) && WordText(qualifier)
    ensures IsDeny("urn:cap:" + (family + (":" + (qualifier + (":" + ("-" + rule))))))
  {
    var after := qualifier + (":" + ("-" + rule));
    WordIff(family);
    WordIff(qualifier);
    DenyIs(family + (":" + after));
    SplitWord(family, after);
    SplitWord(qualifier, "-" + rule);
  }

  lemma DenyIsExclusion(scope: string)
    requires IsDeny(scope)
    ensures Exclusion(scope)
  {
    var rest := scope[|CAP_PREFIX|..];
    assert scope == CAP_PREFIX + rest;
    DenyIs(rest);
    var family, after := SplitOnce(rest, ':').value.0, SplitOnce(rest, ':').value.1;
    SplitRejoins(rest);
    WordIff(family);
    if Dashed(after) {
      DashedIs(after);
      assert Excludes(scope, family, after[1..]);
    } else {
      var qualifier, rule := SplitOnce(after, ':').value.0, SplitOnce(after, ':').value.1;
      SplitRejoins(after);
      WordIff(qualifier);
      DashedIs(rule);
      assert ExcludesUnder(scope, family, qualifier, rule[1..]);
    }
  }

  // A principal is an IRI of at most 512 bytes without a star whose scope is no exclusion, which is one
  // that does not start with a dash nor with a word, a colon and a dash.
  lemma PrincipalIff(iri: string, valid: string -> bool)
    ensures CheckPrincipal(iri, valid).Ok?
            <==> && |Encode(iri)| <= 512 && valid(iri) && '*' !in iri
                 && !Dashed(iri) && forall word, rule :: WordText(word) ==> iri != word + (":" + ("-" + rule))
  {
    PrincipalExcluded(iri);
  }

  lemma PrincipalExcluded(iri: string)
    ensures IsDeny(PRINCIPAL_SCOPE_PREFIX + iri)
            <==> Dashed(iri) || exists word, rule :: WordText(word) && iri == word + (":" + ("-" + rule))
  {
    var rest := "principal" + (":" + iri);
    assert PRINCIPAL_SCOPE_PREFIX + iri == CAP_PREFIX + rest;
    DenyIs(rest);
    PrincipalWord();
    SplitWord("principal", iri);
    if DenyRule(iri) {
      var word, rule := SplitOnce(iri, ':').value.0, SplitOnce(iri, ':').value.1;
      SplitRejoins(iri);
      WordIff(word);
      DashedIs(rule);
      assert WordText(word) && iri == word + (":" + ("-" + rule[1..]));
    }
    if word, rule :| WordText(word) && iri == word + (":" + ("-" + rule)) {
      WordIff(word);
      SplitWord(word, "-" + rule);
    }
  }

  lemma PrincipalWord()
    ensures IsWord("principal")
  {
  }

  // What each refusal says of the text.
  lemma PrincipalRefused(iri: string, valid: string -> bool)
    requires CheckPrincipal(iri, valid).Err?
    ensures match CheckPrincipal(iri, valid).error
            case TooLong(length) => length == |Encode(iri)| > 512
            case NotAnIri(offered) => offered == iri && !valid(iri)
            case Wildcard(offered) => offered == iri && '*' in iri
            case DenyShaped(offered) => offered == iri && IsDeny(PRINCIPAL_SCOPE_PREFIX + iri)
            case OfRoot => false
  {
  }
}
