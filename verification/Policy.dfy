/** The LKOFS access policy: an ordered list of rules of which the first that applies decides. */
module Policy {
  import opened Results
  import opened LkoRoot
  import opened LkoPath
  import opened PathLaws

  datatype SubjectClass =
    | Kernel
    | SystemUpdater
    | SystemService
    | Driver
    | UserShell
    | UserApp
    | SandboxedApp
    | AiAgent
    | CompatibilityRuntime

  datatype Operation = Inspect | Read | Execute | Write | Create | Delete | Rename | ChangePermissions {
    predicate IsMutating() { Write? || Create? || Delete? || Rename? || ChangePermissions? }
    predicate IsDestructive() { Delete? || Write? || Rename? }
  }

  datatype DenyReason = ProtectedLocation | OutsideSandbox | CrossUser | NoGrant | RoleForbidden
  datatype Confirmation = AiInitiatedChange | ForeignApplicationWrite | PermissionChange
  datatype Decision = Allow | Confirm(prompt: Confirmation) | Deny(reason: DenyReason)

  datatype Subject = Subject(class_: SubjectClass, appId: Option<string>, user: Option<string>, grants: seq<Path>,
                             updateTransactionOpen: bool)

  /** Whether any grant covers `p`. */
  predicate Covered(grants: seq<Path>, p: Path) {
    exists i :: 0 <= i < |grants| && IsWithin(p, grants[i])
  }

  /** Whether name `i` after the root exists and is `name` up to ASCII case. */
  predicate TailIs(p: Path, i: nat, name: string) {
    i < |Tail(p)| && SameName(Tail(p)[i], name)
  }

  function EffectiveProtection(p: Path): Protection {
    match p.root
    case None => SystemImmutable
    case Some(root) =>
      if root == Config && TailIs(p, 0, "Security") then SystemImmutable
      else if root == Services && TailIs(p, 0, "Security") then SystemImmutable
      else if root == Ai && TailIs(p, 0, "Memory") then UserOwned
      else ProtectionOf(root)
  }

  predicate RootIn(p: Path, roots: set<Root>) { p.root.Some? && p.root.value in roots }

  predicate IsSystemRole(c: SubjectClass) { c == SystemService || c == SystemUpdater }

  predicate ActsFor(s: Subject, p: Path) { s.user.Some? && TailIs(p, 0, s.user.value) }

  predicate InOwnAppData(s: Subject, p: Path) {
    && RootIn(p, {Users}) && s.user.Some? && s.appId.Some?
    && TailIs(p, 0, s.user.value) && TailIs(p, 1, "AppData") && TailIs(p, 2, s.appId.value)
  }

  predicate InOwnInstall(s: Subject, p: Path) {
    RootIn(p, {Apps}) && s.appId.Some? && TailIs(p, 0, s.appId.value)
  }

  function DriverRule(p: Path, op: Operation): Decision {
    if RootIn(p, {Drivers}) && !op.IsMutating() then Allow
    else if RootIn(p, {Logs, Temp}) then Allow
    else Deny(RoleForbidden)
  }

  /** Rules 7 to 11, for a location that is neither protected, private, scratch nor a sandbox. */
  function OrdinaryRules(s: Subject, p: Path, op: Operation): Decision {
    var protection := EffectiveProtection(p);
    if protection == SystemManaged && op.IsMutating() && !(IsSystemRole(s.class_) || s.class_ == UserShell)
        then Deny(NoGrant)
    else if protection == UserOwned && s.class_ != UserShell && !Covered(s.grants, p) then Deny(NoGrant)
    else if op == ChangePermissions then Confirm(PermissionChange)
    else if s.class_ == AiAgent && op.IsDestructive() then Confirm(AiInitiatedChange)
    else if s.class_ == CompatibilityRuntime && op.IsMutating() then Confirm(ForeignApplicationWrite)
    else Allow
  }

  function Evaluate(s: Subject, p: Path, op: Operation): Decision {
    if s.class_ == Kernel then Allow
    else if EffectiveProtection(p) == SystemImmutable && op.IsMutating() then
      if s.class_ == SystemUpdater && s.updateTransactionOpen then Allow else Deny(ProtectedLocation)
    else if s.class_ == CompatibilityRuntime && RootIn(p, {System, Drivers, Boot, Recovery, Services})
        then Deny(RoleForbidden)
    else if s.class_ == Driver then DriverRule(p, op)
    else if RootIn(p, {Users}) && |Tail(p)| > 0 && !ActsFor(s, p) && !IsSystemRole(s.class_) then Deny(CrossUser)
    else if RootIn(p, {Temp, Cache}) then Allow
    else if s.class_ == SandboxedApp then
      if InOwnAppData(s, p) || (InOwnInstall(s, p) && !op.IsMutating()) then Allow else Deny(OutsideSandbox)
    else OrdinaryRules(s, p, op)
  }

  // ----- case and spelling do not matter

  lemma TailIsComponents(p: Path)
    requires WellFormed(p)
    ensures p == ROOT ==> Tail(p) == [] && Components(p) == []
    ensures p != ROOT ==>
              && p.root.Some? && |Components(p)| > 0
              && Tail(p) == Components(p)[1..] && p.root == ParseRoot(Components(p)[0])
  {
    hide ValidComponent, Spells, ParseRoot, JoinSlash;
    if p == ROOT {
      RootBody();
    } else {
      SpellingMeaning(p.raw, Components(p), p.root.value);
    }
  }

  lemma SamePlaceFacts(p: Path, q: Path)
    requires WellFormed(p) && WellFormed(q) && SamePlace(p, q)
    ensures p.root == q.root && |Tail(p)| == |Tail(q)|
    ensures forall i :: 0 <= i < |Tail(p)| ==> SameName(Tail(p)[i], Tail(q)[i])
    ensures forall g: Path :: IsWithin(p, g) == IsWithin(q, g)
  {
    hide ParseRoot, Components, Tail, WellFormed, SameName;
    ParentMeaning(p);
    ParentMeaning(q);
    TailIsComponents(p);
    TailIsComponents(q);
    if p != ROOT {
      ParseRootFolds(Components(p)[0], Components(q)[0]);
      forall i | 0 <= i < |Tail(p)|
        ensures SameName(Tail(p)[i], Tail(q)[i])
      {
        assert SameName(Components(p)[i + 1], Components(q)[i + 1]);
      }
    }
    forall g: Path
      ensures IsWithin(p, g) == IsWithin(q, g)
    {
      LeadsRespectsCase(Components(p), Components(q), Components(g));
      WithinIsLeads(Components(p), Components(g));
      WithinIsLeads(Components(q), Components(g));
    }
  }

  lemma LeadsRespectsCase(a: seq<string>, b: seq<string>, c: seq<string>)
    requires |a| == |b| && Leads(a, b)
    ensures Leads(a, c) <==> Leads(b, c)
  {
  }

  /** What the rules ask about a path has the same answers for the same place. */
  lemma SameAnswers(s: Subject, p: Path, q: Path)
    requires WellFormed(p) && WellFormed(q) && SamePlace(p, q)
    ensures p.root == q.root && |Tail(p)| == |Tail(q)|
    ensures Covered(s.grants, p) == Covered(s.grants, q) && EffectiveProtection(p) == EffectiveProtection(q)
    ensures ActsFor(s, p) == ActsFor(s, q) && InOwnAppData(s, p) == InOwnAppData(s, q)
              && InOwnInstall(s, p) == InOwnInstall(s, q)
  {
    hide Components, Tail, WellFormed, SamePlace, IsWithin, SameName;
    SamePlaceFacts(p, q);
    forall i: nat, name: string
      ensures TailIs(p, i, name) == TailIs(q, i, name)
    {
      if i < |Tail(p)| { SameNameTransfers(Tail(p)[i], Tail(q)[i], name); }
    }
  }

  /** The verdict depends on the case-folded components of the path and on nothing else about it. */
  lemma EvaluateIgnoresCase(s: Subject, p: Path, q: Path, op: Operation)
    requires WellFormed(p) && WellFormed(q) && Folded(Components(p)) == Folded(Components(q))
    ensures Evaluate(s, p, op) == Evaluate(s, q, op)
  {
    hide Components, Tail, WellFormed, SamePlace, Covered, TailIs, EffectiveProtection, ActsFor, InOwnAppData;
    hide InOwnInstall;
    SamePlaceIsFolded(p, q);
    SameAnswers(s, p, q);
    assert OrdinaryRules(s, p, op) == OrdinaryRules(s, q, op);
    assert DriverRule(p, op) == DriverRule(q, op);
  }

  lemma SameNameTransfers(a: string, b: string, c: string)
    requires SameName(a, b)
    ensures SameName(a, c) <==> SameName(b, c)
  {
  }

  // ----- what grants can change

  /** `t` holds at least the grants of `s`: each is inside one of `t`'s. */
  ghost predicate Widens(t: Subject, s: Subject) {
    && t.class_ == s.class_ && t.appId == s.appId && t.user == s.user
        && t.updateTransactionOpen == s.updateTransactionOpen
    && forall i :: 0 <= i < |s.grants| ==> exists j :: 0 <= j < |t.grants| && IsWithin(s.grants[i], t.grants[j])
  }

  /** Adding or widening grants can only lift a refusal for want of a grant. */
  lemma GrantsOnlyLiftNoGrant(s: Subject, t: Subject, p: Path, op: Operation)
    requires Widens(t, s)
    ensures Evaluate(t, p, op) == Evaluate(s, p, op) || Evaluate(s, p, op) == Deny(NoGrant)
  {
    hide IsWithin, TailIs, EffectiveProtection, Tail;
    if Covered(s.grants, p) {
      var i :| 0 <= i < |s.grants| && IsWithin(p, s.grants[i]);
      var j :| 0 <= j < |t.grants| && IsWithin(s.grants[i], t.grants[j]);
      WithinIsPreorder(p, s.grants[i], t.grants[j]);
      assert Covered(t.grants, p);
    }
  }
}
