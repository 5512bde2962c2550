// Capabilities (crates/ikigai-core/src/capability.rs): scopes that are grants, exclusions or a
// principal, and the two operations that narrow them.
//
// Whether a text is an IRI is a parameter, `valid`.

module Capabilities {
  import opened Wrappers
  import opened Text
  import opened Utf8
  import opened ContractIris

  datatype Capability = Root | Scoped(scopes: set<string>)

  const CAP_PREFIX: string := "urn:cap:"
  const PRINCIPAL_SCOPE_PREFIX: string := "urn:cap:principal:"
  const MAX_PRINCIPAL_LEN: nat := 512

  // ---- the shape of a scope ----

  predicate WordStart(c: char) { 'a' <= c <= 'z' || '0' <= c <= '9' }
  predicate WordChar(c: char) { WordStart(c) || c == '_' || c == '-' }

  predicate IsWord(segment: string) {
    segment != "" && WordStart(segment[0]) && forall k | 0 <= k < |segment| :: WordChar(segment[k])
  }

  predicate Dashed(s: string) { s != "" && s[0] == '-' }

  // Whether a scope is an exclusion: a dash before the rule, after one word or after two.
  predicate IsDeny(scope: string) {
    match StripPrefix(scope, CAP_PREFIX)
    case None => false
    case Some(rest) =>
      match SplitOnce(rest, ':')
      case None => false
      case Some((family, after)) =>
        && IsWord(family)
        && (Dashed(after)
            || match SplitOnce(after, ':')
               case None => false
               case Some((qualifier, rule)) => IsWord(qualifier) && Dashed(rule))
  }

  // ---- principals ----

  datatype PrincipalError =
    | TooLong(length: nat)
    | NotAnIri(offered: string)
    | Wildcard(offered: string)
    | DenyShaped(offered: string)
    | OfRoot

  function CheckPrincipal(iri: string, valid: string -> bool): Result<(), PrincipalError> {
    if |Encode(iri)| > MAX_PRINCIPAL_LEN then Err(TooLong(|Encode(iri)|))
    else if !valid(iri) then Err(NotAnIri(iri))
    else if '*' in iri then Err(Wildcard(iri))
    else if IsDeny(PRINCIPAL_SCOPE_PREFIX + iri) then Err(DenyShaped(iri))
    else Ok(())
  }

  // The principal a scope carries, if it is a well-formed principal scope.
  function PrincipalIn(scope: string, valid: string -> bool): (iri: Option<string>)
    ensures iri.Some? ==> scope == PRINCIPAL_SCOPE_PREFIX + iri.value && !IsDeny(scope)
  {
    match StripPrefix(scope, PRINCIPAL_SCOPE_PREFIX)
    case None => None
    case Some(iri) => if CheckPrincipal(iri, valid).Ok? then Some(iri) else None
  }

  ghost function Principals(held: set<string>, valid: string -> bool): set<string> {
    set scope | scope in held && PrincipalIn(scope, valid).Some?
  }

  // The one principal some scopes carry: none for none and for several.
  ghost function SinglePrincipal(held: set<string>, valid: string -> bool): Option<string> {
    var carrying := Principals(held, valid);
    if |carrying| != 1 then None
    else
      var scope :| scope in carrying;
      PrincipalIn(scope, valid)
  }

  ghost function AtMostOnePrincipal(scopes: set<string>, valid: string -> bool): set<string> {
    if |Principals(scopes, valid)| > 1 then scopes - Principals(scopes, valid) else scopes
  }

  // ---- narrowing ----

  ghost predicate Kept(scope: string, mine: Option<string>, requested: set<string>, valid: string -> bool) {
    match PrincipalIn(scope, valid)
    case Some(principal) => Some(principal) == mine && scope in requested
    case None => IsDeny(scope) || scope in requested
  }

  ghost function Exclusions(scopes: set<string>): set<string> { set scope | scope in scopes && IsDeny(scope) }

  ghost function Attenuate(c: Capability, requested: set<string>, valid: string -> bool): Capability {
    match c
    case Root => Scoped(AtMostOnePrincipal(requested, valid))
    case Scoped(held) =>
      var mine := SinglePrincipal(held, valid);
      Scoped((set scope | scope in held && Kept(scope, mine, requested, valid)) + Exclusions(requested))
  }

  ghost function Clamp(ceiling: Capability, carried: Capability, valid: string -> bool): Capability {
    match carried
    case Root => ceiling
    case Scoped(scopes) =>
      var clamped := Attenuate(ceiling, scopes, valid);
      if ceiling.Root? || SinglePrincipal(ceiling.scopes, valid).None? then clamped
      else Scoped(clamped.scopes + {PRINCIPAL_SCOPE_PREFIX + SinglePrincipal(ceiling.scopes, valid).value})
  }

  ghost function Principal(c: Capability, valid: string -> bool): Option<string> {
    if c.Root? then None else SinglePrincipal(c.scopes, valid)
  }

  ghost predicate ActsAs(c: Capability, principal: string, valid: string -> bool) {
    c.Root? || SinglePrincipal(c.scopes, valid) == Some(principal)
  }

  ghost function WithPrincipal(c: Capability, principal: string, valid: string -> bool)
    : Result<Capability, PrincipalError>
  {
    match CheckPrincipal(principal, valid)
    case Err(e) => Err(e)
    case Ok(_) =>
      if c.Root? then Err(OfRoot)
      else
        Ok(Scoped((set scope | scope in c.scopes && !(PRINCIPAL_SCOPE_PREFIX <= scope))
                  + {PRINCIPAL_SCOPE_PREFIX + principal}))
  }

  ghost predicate Allows(c: Capability, scope: string, valid: string -> bool) {
    match c
    case Root => true
    case Scoped(held) =>
      && scope in held && !IsDeny(scope)
      && (PrincipalIn(scope, valid).Some? ==> SinglePrincipal(held, valid) == PrincipalIn(scope, valid))
  }

  // A declared scope, with the trailing-star family form as a presence test.
  ghost predicate Satisfies(c: Capability, scope: string, valid: string -> bool) {
    if scope != "" && scope[|scope| - 1] == '*'
    then c.Root? || exists held | held in c.scopes :: scope[..|scope| - 1] <= held
    else Allows(c, scope, valid)
  }

  // ---- the three parts of a capability ----

  // The ordinary grants: neither exclusion nor principal.
  ghost function Grants(scopes: set<string>, valid: string -> bool): set<string> {
    set scope | scope in scopes && !IsDeny(scope) && PrincipalIn(scope, valid).None?
  }

  ghost function Named(who: Option<string>): set<string> {
    if who.Some? then {PRINCIPAL_SCOPE_PREFIX + who.value} else {}
  }

  // Scopes put together from their parts.
  ghost predicate Parts(scopes: set<string>, grants: set<string>, denies: set<string>, who: Option<string>,
                        valid: string -> bool)
  {
    && Grants(scopes, valid) == grants && Exclusions(scopes) == denies && SinglePrincipal(scopes, valid) == who
  }

  lemma OneOf<T>(s: set<T>, x: T)
    requires x in s && |s| == 1
    ensures s == {x}
  {
    assert |s - {x}| == 0;
  }

  lemma SingleIs(held: set<string>, valid: string -> bool, scope: string)
    requires Principals(held, valid) == {scope}
    ensures SinglePrincipal(held, valid) == PrincipalIn(scope, valid)
  {
  }

  // A single principal is carried by one scope, its own.
  lemma SingleHeld(held: set<string>, valid: string -> bool)
    requires SinglePrincipal(held, valid).Some?
    ensures var scope := PRINCIPAL_SCOPE_PREFIX + SinglePrincipal(held, valid).value;
            Principals(held, valid) == {scope} && PrincipalIn(scope, valid) == SinglePrincipal(held, valid)
  {
    var scope :| scope in Principals(held, valid);
    OneOf(Principals(held, valid), scope);
    SingleIs(held, valid, scope);
  }

  lemma NoneHeld(held: set<string>, valid: string -> bool)
    requires Principals(held, valid) == {}
    ensures SinglePrincipal(held, valid).None?
  {
  }

  // Scopes are their grants, their exclusions and their principals.
  lemma InParts(scopes: set<string>, valid: string -> bool)
    ensures scopes == Grants(scopes, valid) + Exclusions(scopes) + Principals(scopes, valid)
  {
  }

  // Put together from grants, exclusions and at most one principal, they come apart again.
  lemma MadeOf(scopes: set<string>, grants: set<string>, denies: set<string>, who: Option<string>,
               valid: string -> bool)
    requires scopes == grants + denies + Named(who)
    requires forall s | s in grants :: !IsDeny(s) && PrincipalIn(s, valid).None?
    requires forall s | s in denies :: IsDeny(s)
    requires who.Some? ==> PrincipalIn(PRINCIPAL_SCOPE_PREFIX + who.value, valid) == who
    ensures Parts(scopes, grants, denies, who, valid)
  {
    assert Principals(scopes, valid) == Named(who);
    if who.Some? {
      SingleIs(scopes, valid, PRINCIPAL_SCOPE_PREFIX + who.value);
    } else {
      NoneHeld(scopes, valid);
    }
    assert Grants(scopes, valid) == grants;
    assert Exclusions(scopes) == denies;
  }

  lemma WhoIsNamed(held: set<string>, valid: string -> bool)
    ensures var who := SinglePrincipal(held, valid);
            who.Some? ==> PrincipalIn(PRINCIPAL_SCOPE_PREFIX + who.value, valid) == who
  {
    if SinglePrincipal(held, valid).Some? {
      SingleHeld(held, valid);
    }
  }

  // ---- what narrowing keeps ----

  // Attenuating keeps the grants both sides name, every exclusion of either, and the holder's one
  // principal when it is asked for.
  lemma AttenuateKeeps(held: set<string>, requested: set<string>, valid: string -> bool)
    ensures var who := SinglePrincipal(held, valid);
            var left := if who.Some? && PRINCIPAL_SCOPE_PREFIX + who.value in requested then who else None;
            var kept := Attenuate(Scoped(held), requested, valid).scopes;
            && kept == Grants(held, valid) * Grants(requested, valid) + (Exclusions(held) + Exclusions(requested))
               + Named(left)
            && Parts(kept, Grants(held, valid) * Grants(requested, valid), Exclusions(held) + Exclusions(requested),
                     left, valid)
  {
    var who := SinglePrincipal(held, valid);
    var left := if who.Some? && PRINCIPAL_SCOPE_PREFIX + who.value in requested then who else None;
    var kept := Attenuate(Scoped(held), requested, valid).scopes;
    var grants, denies := Grants(held, valid) * Grants(requested, valid), Exclusions(held) + Exclusions(requested);
    WhoIsNamed(held, valid);
    forall s ensures s in kept <==> s in grants + denies + Named(left) {
      KeptIf(held, requested, valid, s);
    }
    MadeOf(kept, grants, denies, left, valid);
  }

  // Which scopes an attenuation leaves, one by one.
  lemma KeptIf(held: set<string>, requested: set<string>, valid: string -> bool, s: string)
    ensures var who := SinglePrincipal(held, valid);
            s in Attenuate(Scoped(held), requested, valid).scopes
            <==> (s in Grants(held, valid) && s in Grants(requested, valid)) || s in Exclusions(held)
                 || s in Exclusions(requested)
                 || (who.Some? && s == PRINCIPAL_SCOPE_PREFIX + who.value && s in requested)
  {
    if SinglePrincipal(held, valid).Some? {
      SingleHeld(held, valid);
      assert PRINCIPAL_SCOPE_PREFIX + SinglePrincipal(held, valid).value in Principals(held, valid);
    }
  }

  // Clamping a scoped ceiling keeps the same, and its own principal whatever was carried.
  lemma ClampKeeps(held: set<string>, carried: set<string>, valid: string -> bool)
    ensures var who := SinglePrincipal(held, valid);
            var kept := Clamp(Scoped(held), Scoped(carried), valid).scopes;
            && kept == Grants(held, valid) * Grants(carried, valid) + (Exclusions(held) + Exclusions(carried))
               + Named(who)
            && Parts(kept, Grants(held, valid) * Grants(carried, valid), Exclusions(held) + Exclusions(carried),
                     who, valid)
  {
    var who := SinglePrincipal(held, valid);
    AttenuateKeeps(held, carried, valid);
    WhoIsNamed(held, valid);
    MadeOf(Clamp(Scoped(held), Scoped(carried), valid).scopes, Grants(held, valid) * Grants(carried, valid),
           Exclusions(held) + Exclusions(carried), who, valid);
  }

  // Root narrows to what is asked for, without the principals when they are several.
  lemma RootKeeps(requested: set<string>, valid: string -> bool)
    ensures var who := SinglePrincipal(requested, valid);
            var kept := AtMostOnePrincipal(requested, valid);
            && kept == Grants(requested, valid) + Exclusions(requested) + Named(who)
            && Parts(kept, Grants(requested, valid), Exclusions(requested), who, valid)
  {
    var who := SinglePrincipal(requested, valid);
    var kept := AtMostOnePrincipal(requested, valid);
    InParts(requested, valid);
    WhoIsNamed(requested, valid);
    if who.Some? {
      SingleHeld(requested, valid);
    }
    if |Principals(requested, valid)| == 1 {
      var scope :| scope in Principals(requested, valid);
      OneOf(Principals(requested, valid), scope);
      SingleIs(requested, valid, scope);
    }
    MadeOf(Grants(requested, valid) + Exclusions(requested) + Named(who), Grants(requested, valid),
           Exclusions(requested), who, valid);
  }

  // Clamping is associative: it does not matter whether a ceiling is lowered before or after.
  lemma ClampAssociative(a: Capability, b: Capability, c: Capability, valid: string -> bool)
    ensures Clamp(Clamp(a, b, valid), c, valid) == Clamp(a, Clamp(b, c, valid), valid)
  {
    if b.Scoped? && c.Scoped? {
      ClampKeeps(b.scopes, c.scopes, valid);
      var bc := Clamp(b, c, valid).scopes;
      if a.Scoped? {
        ClampKeeps(a.scopes, b.scopes, valid);
        ClampKeeps(Clamp(a, b, valid).scopes, c.scopes, valid);
        ClampKeeps(a.scopes, bc, valid);
        SetsAssociate(Grants(a.scopes, valid), Grants(b.scopes, valid), Grants(c.scopes, valid),
                      Exclusions(a.scopes), Exclusions(b.scopes), Exclusions(c.scopes));
      } else {
        RootKeeps(b.scopes, valid);
        ClampKeeps(AtMostOnePrincipal(b.scopes, valid), c.scopes, valid);
        RootKeeps(bc, valid);
      }
    } else if b.Root? && c.Scoped? && a.Root? {
      RootKeeps(c.scopes, valid);
      RootKeeps(AtMostOnePrincipal(c.scopes, valid), valid);
    } else if b.Root? && c.Scoped? {
      RootKeeps(c.scopes, valid);
      ClampKeeps(a.scopes, c.scopes, valid);
      ClampKeeps(a.scopes, AtMostOnePrincipal(c.scopes, valid), valid);
    }
  }

  lemma SetsAssociate(a: set<string>, b: set<string>, c: set<string>, x: set<string>, y: set<string>, z: set<string>)
    ensures a * b * c == a * (b * c) && x + y + z == x + (y + z)
  {
  }

  // A scoped capability allows its ordinary grants and its one principal.
  lemma AllowsParts(held: set<string>, scope: string, valid: string -> bool)
    ensures PrincipalIn(scope, valid).None? ==> (Allows(Scoped(held), scope, valid) <==> scope in Grants(held, valid))
    ensures PrincipalIn(scope, valid).Some? ==>
              (Allows(Scoped(held), scope, valid) <==> SinglePrincipal(held, valid) == PrincipalIn(scope, valid))
  {
    if SinglePrincipal(held, valid).Some? {
      SingleHeld(held, valid);
      assert PRINCIPAL_SCOPE_PREFIX + SinglePrincipal(held, valid).value in Principals(held, valid);
    }
  }

  // What a clamp allows is what both sides allow; who it acts as is the ceiling's to say, or the
  // carried capability's under root.
  lemma ClampAllowsBoth(ceiling: Capability, carried: Capability, scope: string, valid: string -> bool)
    ensures PrincipalIn(scope, valid).None? ==>
              (Allows(Clamp(ceiling, carried, valid), scope, valid)
               <==> Allows(ceiling, scope, valid) && Allows(carried, scope, valid))
    ensures PrincipalIn(scope, valid).Some? ==>
              (Allows(Clamp(ceiling, carried, valid), scope, valid)
               <==> if ceiling.Root? then Allows(carried, scope, valid) else Allows(ceiling, scope, valid))
  {
    if carried.Scoped? {
      AllowsParts(carried.scopes, scope, valid);
      AllowsParts(Clamp(ceiling, carried, valid).scopes, scope, valid);
      if ceiling.Scoped? {
        AllowsParts(ceiling.scopes, scope, valid);
        ClampKeeps(ceiling.scopes, carried.scopes, valid);
      } else {
        RootKeeps(carried.scopes, valid);
      }
    }
  }
}
