/**
 What the ordered rules of the access policy add up to, told by names and role: which names make a
 place immutable, owned, managed or scratch, and what each role may do in each kind of place.
 */
module PolicyLaws {
  import opened Results
  import opened LkoRoot
  import opened LkoPath
  import opened PathLaws
  import opened Policy

  const MUTATING: set<Operation> := {Write, Create, Delete, Rename, ChangePermissions}
  const DESTRUCTIVE: set<Operation> := {Write, Delete, Rename}

  // ----- places

  /** Component `i` exists and is `name` up to ASCII case. */
  predicate Named(cs: seq<string>, i: nat, name: string) { i < |cs| && SameName(cs[i], name) }

  /** The volume root, four roots, and the security branch of two more. */
  predicate Immutable(cs: seq<string>) {
    || cs == []
    || Named(cs, 0, "System") || Named(cs, 0, "Drivers") || Named(cs, 0, "Boot") || Named(cs, 0, "Recovery")
    || ((Named(cs, 0, "Config") || Named(cs, 0, "Services")) && Named(cs, 1, "Security"))
  }

  predicate Owned(cs: seq<string>) {
    Named(cs, 0, "Users") || Named(cs, 0, "Lowser") || (Named(cs, 0, "AI") && Named(cs, 1, "Memory"))
  }

  predicate Scratch(cs: seq<string>) { Named(cs, 0, "Temp") || Named(cs, 0, "Cache") }

  predicate Managed(cs: seq<string>) {
    || ((Named(cs, 0, "Config") || Named(cs, 0, "Services")) && !Named(cs, 1, "Security"))
    || (Named(cs, 0, "AI") && !Named(cs, 1, "Memory"))
    || Named(cs, 0, "Apps") || Named(cs, 0, "Runtime") || Named(cs, 0, "Data") || Named(cs, 0, "Logs")
    || Named(cs, 0, "Linder") || Named(cs, 0, "Store") || Named(cs, 0, "Compatibility") || Named(cs, 0, "Dev")
  }

  /** A home under `Users` that is not that of the user the subject acts for. */
  predicate ForeignHome(s: Subject, cs: seq<string>) {
    Named(cs, 0, "Users") && |cs| > 1 && !(s.user.Some? && Named(cs, 1, s.user.value))
  }

  predicate OwnAppData(s: Subject, cs: seq<string>) {
    && s.user.Some? && s.appId.Some? && Named(cs, 0, "Users")
    && Named(cs, 1, s.user.value) && Named(cs, 2, "AppData") && Named(cs, 3, s.appId.value)
  }

  predicate OwnInstall(s: Subject, cs: seq<string>) {
    s.appId.Some? && Named(cs, 0, "Apps") && Named(cs, 1, s.appId.value)
  }

  /** Some grant's components lead the path's. */
  ghost predicate Granted(s: Subject, cs: seq<string>) {
    exists i :: 0 <= i < |s.grants| && Leads(cs, Components(s.grants[i]))
  }

  // ----- what the rules ask, by names

  /** The root of a path is the one its first component names. */
  lemma RootByName(p: Path)
    requires WellFormed(p)
    ensures p.root == None <==> Components(p) == []
    ensures p.root == Some(System) <==> Named(Components(p), 0, "System")
    ensures p.root == Some(Users) <==> Named(Components(p), 0, "Users")
    ensures p.root == Some(Apps) <==> Named(Components(p), 0, "Apps")
    ensures p.root == Some(Drivers) <==> Named(Components(p), 0, "Drivers")
    ensures p.root == Some(Services) <==> Named(Components(p), 0, "Services")
    ensures p.root == Some(Runtime) <==> Named(Components(p), 0, "Runtime")
    ensures p.root == Some(Config) <==> Named(Components(p), 0, "Config")
    ensures p.root == Some(Data) <==> Named(Components(p), 0, "Data")
    ensures p.root == Some(Temp) <==> Named(Components(p), 0, "Temp")
    ensures p.root == Some(Cache) <==> Named(Components(p), 0, "Cache")
    ensures p.root == Some(Logs) <==> Named(Components(p), 0, "Logs")
    ensures p.root == Some(Recovery) <==> Named(Components(p), 0, "Recovery")
    ensures p.root == Some(Boot) <==> Named(Components(p), 0, "Boot")
    ensures p.root == Some(Ai) <==> Named(Components(p), 0, "AI")
    ensures p.root == Some(Linder) <==> Named(Components(p), 0, "Linder")
    ensures p.root == Some(Lowser) <==> Named(Components(p), 0, "Lowser")
    ensures p.root == Some(Store) <==> Named(Components(p), 0, "Store")
    ensures p.root == Some(Compatibility) <==> Named(Components(p), 0, "Compatibility")
    ensures p.root == Some(Dev) <==> Named(Components(p), 0, "Dev")
  {
    hide WellFormed, Components, Tail, ParseRoot, SameName;
    RootMeaning(p, System);
    RootMeaning(p, Users);
    RootMeaning(p, Apps);
    RootMeaning(p, Drivers);
    RootMeaning(p, Services);
    RootMeaning(p, Runtime);
    RootMeaning(p, Config);
    RootMeaning(p, Data);
    RootMeaning(p, Temp);
    RootMeaning(p, Cache);
    RootMeaning(p, Logs);
    RootMeaning(p, Recovery);
    RootMeaning(p, Boot);
    RootMeaning(p, Ai);
    RootMeaning(p, Linder);
    RootMeaning(p, Lowser);
    RootMeaning(p, Store);
    RootMeaning(p, Compatibility);
    RootMeaning(p, Dev);
  }

  lemma RootMeaning(p: Path, r: Root)
    requires WellFormed(p)
    ensures p.root == Some(r) <==> Named(Components(p), 0, Name(r))
    ensures p.root == None <==> Components(p) == []
  {
    hide WellFormed, Components, Tail, ParseRoot, SameName, Name;
    TailIsComponents(p);
    if p != ROOT { ParseRootMeaning(Components(p)[0], r); }
  }

  lemma TailByName(p: Path, i: nat, name: string)
    requires WellFormed(p)
    ensures TailIs(p, i, name) <==> Named(Components(p), i + 1, name)
    ensures |Tail(p)| > 0 <==> |Components(p)| > 1
  {
    hide WellFormed, Components, Tail, ParseRoot, SameName;
    TailIsComponents(p);
  }

  /** The protection of a place is a matter of its names, whatever their case and spelling. */
  lemma ProtectionByName(p: Path)
    requires WellFormed(p)
    ensures EffectiveProtection(p) == SystemImmutable <==> Immutable(Components(p))
    ensures EffectiveProtection(p) == UserOwned <==> Owned(Components(p))
    ensures EffectiveProtection(p) == Volatile <==> Scratch(Components(p))
    ensures EffectiveProtection(p) == SystemManaged <==> Managed(Components(p))
  {
    hide WellFormed, Components, TailIs, SameName, Named;
    RootByName(p);
    TailByName(p, 0, "Security");
    TailByName(p, 0, "Memory");
  }

  lemma CoveredByName(s: Subject, p: Path)
    ensures Covered(s.grants, p) <==> Granted(s, Components(p))
  {
    hide Components, Leads;
    forall i | 0 <= i < |s.grants|
      ensures IsWithin(p, s.grants[i]) <==> Leads(Components(p), Components(s.grants[i]))
    {
      WithinIsLeads(Components(p), Components(s.grants[i]));
    }
  }

  lemma OwnByName(s: Subject, p: Path)
    requires WellFormed(p)
    ensures RootIn(p, {Users}) && |Tail(p)| > 0 && !ActsFor(s, p) <==> ForeignHome(s, Components(p))
    ensures InOwnAppData(s, p) <==> OwnAppData(s, Components(p))
    ensures InOwnInstall(s, p) <==> OwnInstall(s, Components(p))
  {
    hide WellFormed, Components, Tail, TailIs, Named;
    RootByName(p);
    TailByName(p, 1, "AppData");
    if s.user.Some? { TailByName(p, 0, s.user.value); }
    if s.appId.Some? {
      TailByName(p, 0, s.appId.value);
      TailByName(p, 2, s.appId.value);
    }
  }

  // ----- verdicts, role by role

  /** In a place that needs a grant. */
  ghost function WithGrant(s: Subject, cs: seq<string>, op: Operation, otherwise: Decision): Decision {
    if !Granted(s, cs) then Deny(NoGrant)
    else if op == ChangePermissions then Confirm(PermissionChange)
    else otherwise
  }

  function AskOnChange(op: Operation): Decision {
    if op == ChangePermissions then Confirm(PermissionChange) else Allow
  }

  /** What a role is told about a place, without the order of the rules. */
  ghost function Verdict(s: Subject, cs: seq<string>, op: Operation): Decision {
    var changes := op in MUTATING;
    match s.class_
    case Kernel => Allow
    case Driver =>
      if Immutable(cs) && changes then Deny(ProtectedLocation)
      else if Named(cs, 0, "Drivers") || Named(cs, 0, "Logs") || Named(cs, 0, "Temp") then Allow
      else Deny(RoleForbidden)
    case SystemUpdater =>
      if Immutable(cs) then (if changes && !s.updateTransactionOpen then Deny(ProtectedLocation) else Allow)
      else if Owned(cs) then WithGrant(s, cs, op, Allow)
      else if Scratch(cs) then Allow
      else AskOnChange(op)
    case SystemService =>
      if Immutable(cs) then (if changes then Deny(ProtectedLocation) else Allow)
      else if Owned(cs) then WithGrant(s, cs, op, Allow)
      else if Scratch(cs) then Allow
      else AskOnChange(op)
    case UserShell =>
      if Immutable(cs) then (if changes then Deny(ProtectedLocation) else Allow)
      else if ForeignHome(s, cs) then Deny(CrossUser)
      else if Scratch(cs) then Allow
      else AskOnChange(op)
    case UserApp =>
      if Immutable(cs) then (if changes then Deny(ProtectedLocation) else Allow)
      else if ForeignHome(s, cs) then Deny(CrossUser)
      else if Owned(cs) then WithGrant(s, cs, op, Allow)
      else if changes && !Scratch(cs) then Deny(NoGrant)
      else Allow
    case AiAgent =>
      if Immutable(cs) then (if changes then Deny(ProtectedLocation) else Allow)
      else if ForeignHome(s, cs) then Deny(CrossUser)
      else if Owned(cs) then WithGrant(s, cs, op, if op in DESTRUCTIVE then Confirm(AiInitiatedChange) else Allow)
      else if changes && !Scratch(cs) then Deny(NoGrant)
      else Allow
    case CompatibilityRuntime =>
      if Immutable(cs) && changes then Deny(ProtectedLocation)
      else if Named(cs, 0, "Services") || (Immutable(cs) && cs != [] && !Named(cs, 0, "Config"))
          then Deny(RoleForbidden)
      else if ForeignHome(s, cs) then Deny(CrossUser)
      else if Owned(cs) then WithGrant(s, cs, op, if changes then Confirm(ForeignApplicationWrite) else Allow)
      else if changes && !Scratch(cs) then Deny(NoGrant)
      else Allow
    case SandboxedApp =>
      if Immutable(cs) && changes then Deny(ProtectedLocation)
      else if ForeignHome(s, cs) then Deny(CrossUser)
      else if Scratch(cs) || OwnAppData(s, cs) || (OwnInstall(s, cs) && !changes) then Allow
      else Deny(OutsideSandbox)
  }

  /** No place is of two kinds. */
  lemma OneKind(p: Path)
    requires WellFormed(p)
    ensures Immutable(Components(p)) ==> !Owned(Components(p)) && !Scratch(Components(p)) && !Managed(Components(p))
    ensures Owned(Components(p)) ==> !Scratch(Components(p)) && !Managed(Components(p))
    ensures Scratch(Components(p)) ==> !Managed(Components(p))
    ensures Immutable(Components(p)) || Owned(Components(p)) || Scratch(Components(p)) || Managed(Components(p))
  {
    hide WellFormed, Components, EffectiveProtection, Immutable, Owned, Scratch, Managed;
    ProtectionByName(p);
  }

  /** The roots the rules mention, by kind of place. */
  lemma RootsByKind(s: Subject, p: Path)
    requires WellFormed(p)
    ensures
      var cs := Components(p);
      && (RootIn(p, {Temp, Cache}) <==> Scratch(cs))
      && (RootIn(p, {Logs, Temp}) <==> Named(cs, 0, "Logs") || Named(cs, 0, "Temp"))
      && (RootIn(p, {Drivers}) <==> Named(cs, 0, "Drivers"))
      && (RootIn(p, {System, Drivers, Boot, Recovery, Services}) <==>
          Named(cs, 0, "Services") || (Immutable(cs) && cs != [] && !Named(cs, 0, "Config")))
      && (Named(cs, 0, "Drivers") ==> Immutable(cs))
      && (ForeignHome(s, cs) ==> Owned(cs))
  {
    hide WellFormed, Components, SameName, Named;
    RootByName(p);
  }

  /** Everything the rules ask about a place, by its names. */
  lemma Answers(s: Subject, p: Path)
    requires WellFormed(p)
    ensures
      var cs, protection := Components(p), EffectiveProtection(p);
      && (protection == SystemImmutable <==> Immutable(cs)) && (protection == UserOwned <==> Owned(cs))
      && (protection == SystemManaged <==> Managed(cs)) && (protection == Volatile <==> Scratch(cs))
      && (RootIn(p, {Temp, Cache}) <==> Scratch(cs))
      && (RootIn(p, {Logs, Temp}) <==> Named(cs, 0, "Logs") || Named(cs, 0, "Temp"))
      && (RootIn(p, {Drivers}) <==> Named(cs, 0, "Drivers"))
      && (RootIn(p, {System, Drivers, Boot, Recovery, Services}) <==>
          Named(cs, 0, "Services") || (Immutable(cs) && cs != [] && !Named(cs, 0, "Config")))
      && (Named(cs, 0, "Drivers") ==> Immutable(cs)) && (ForeignHome(s, cs) ==> Owned(cs))
      && (Covered(s.grants, p) <==> Granted(s, cs))
      && (RootIn(p, {Users}) && |Tail(p)| > 0 && !ActsFor(s, p) <==> ForeignHome(s, cs))
      && (InOwnAppData(s, p) <==> OwnAppData(s, cs)) && (InOwnInstall(s, p) <==> OwnInstall(s, cs))
  {
    hide WellFormed, Components, Tail, EffectiveProtection, Named, Covered, Granted, ActsFor, InOwnAppData;
    hide InOwnInstall;
    hide OwnAppData, OwnInstall, Immutable, Owned, Scratch, Managed, ForeignHome, RootIn;
    RootsByKind(s, p);
    ProtectionByName(p);
    CoveredByName(s, p);
    OwnByName(s, p);
  }

  /** Roles that are confined to places of their own. */
  lemma ConfinedByName(s: Subject, p: Path, op: Operation)
    requires WellFormed(p) && s.class_ in {Kernel, Driver, SandboxedApp}
    ensures Evaluate(s, p, op) == Verdict(s, Components(p), op)
  {
    hide WellFormed, Components, Tail, EffectiveProtection, Named, Covered, Granted, ActsFor, InOwnAppData;
    hide InOwnInstall;
    hide OwnAppData, OwnInstall, SameName, Immutable, Owned, Scratch, Managed, ForeignHome, RootIn;
    Answers(s, p);
  }

  /** Roles that manage the system. */
  lemma TrustedByName(s: Subject, p: Path, op: Operation)
    requires WellFormed(p) && s.class_ in {SystemUpdater, SystemService, UserShell}
    ensures Evaluate(s, p, op) == Verdict(s, Components(p), op)
  {
    hide WellFormed, Components, Tail, EffectiveProtection, Named, Covered, Granted, ActsFor, InOwnAppData;
    hide InOwnInstall;
    hide OwnAppData, OwnInstall, SameName, Immutable, Owned, Scratch, Managed, ForeignHome, RootIn;
    Answers(s, p);
  }

  /** Roles that work for the user through grants. */
  lemma ServedByName(s: Subject, p: Path, op: Operation)
    requires WellFormed(p) && s.class_ in {UserApp, AiAgent, CompatibilityRuntime}
    ensures Evaluate(s, p, op) == Verdict(s, Components(p), op)
  {
    hide WellFormed, Components, Tail, EffectiveProtection, Named, Covered, Granted, ActsFor, InOwnAppData;
    hide InOwnInstall;
    hide OwnAppData, OwnInstall, SameName, Immutable, Owned, Scratch, Managed, ForeignHome, RootIn;
    Answers(s, p);
  }

  /** The ordered rules give every role, in every place and for every operation, that verdict. */
  lemma EvaluateByName(s: Subject, p: Path, op: Operation)
    requires WellFormed(p)
    ensures Evaluate(s, p, op) == Verdict(s, Components(p), op)
  {
    hide WellFormed, Components, Evaluate, Verdict;
    match s.class_
    case Kernel | Driver | SandboxedApp => ConfinedByName(s, p, op);
    case SystemUpdater | SystemService | UserShell => TrustedByName(s, p, op);
    case UserApp | AiAgent | CompatibilityRuntime => ServedByName(s, p, op);
  }

  /** From the text: in either spelling, names under a root parse, and the verdict is that of the names. */
  lemma TextByName(s: Subject, input: string, cs: seq<string>, op: Operation)
    requires |cs| > 0 && AllValid(cs) && ParseRoot(cs[0]).Some?
    requires Spells(input, JoinSlash(cs)) && ByteLen(input) <= MAX_PATH_LEN
    ensures Parse(input).Success?
    ensures Evaluate(s, Parse(input).value, op) == Verdict(s, cs, op)
  {
    hide Parse, Components, Tail, WellFormed, ParseRoot, Spells, JoinSlash, ValidComponent, Evaluate, Verdict;
    var root := ParseRoot(cs[0]).value;
    SpellingParses(input, cs, root);
    SpellingMeaning(input, cs, root);
    EvaluateByName(s, Path(input, Some(root)), op);
  }

  // ----- what is promised of the verdicts

  /** Only the kernel and an open update transaction may change an immutable place. */
  lemma ImmutableText(s: Subject, input: string, cs: seq<string>, op: Operation)
    requires |cs| > 0 && AllValid(cs) && Immutable(cs) && op in MUTATING
    requires Spells(input, JoinSlash(cs)) && ByteLen(input) <= MAX_PATH_LEN
    ensures Parse(input).Success?
    ensures Evaluate(s, Parse(input).value, op) ==
            if s.class_ == Kernel || (s.class_ == SystemUpdater && s.updateTransactionOpen) then Allow
            else Deny(ProtectedLocation)
  {
    hide Parse, Evaluate, ParseRoot, SameName, Spells, JoinSlash, ValidComponent, Granted;
    ImmutableRoot(cs);
    TextByName(s, input, cs, op);
  }

  lemma ImmutableRoot(cs: seq<string>)
    requires |cs| > 0 && Immutable(cs)
    ensures ParseRoot(cs[0]).Some?
  {
    hide SameName, ParseRoot;
    var root :| root in {System, Drivers, Boot, Recovery, Config, Services} && SameName(cs[0], Name(root));
    ParseRootMeaning(cs[0], root);
  }

  /** No other rule refuses a place as protected. */
  lemma ImmutableExactly(s: Subject, p: Path, op: Operation)
    requires WellFormed(p)
    ensures Evaluate(s, p, op) == Deny(ProtectedLocation) <==>
            && op in MUTATING && Immutable(Components(p))
            && s.class_ != Kernel && !(s.class_ == SystemUpdater && s.updateTransactionOpen)
  {
    hide WellFormed, Components, Evaluate, Immutable, Owned, Scratch, ForeignHome, OwnAppData, OwnInstall, Granted;
    hide Named;
    EvaluateByName(s, p, op);
  }

  /** What the user owns is refused for want of a grant exactly to the roles that need one and have none. */
  lemma OwnedNeedsGrant(s: Subject, p: Path, op: Operation)
    requires WellFormed(p) && Owned(Components(p))
    ensures Evaluate(s, p, op) == Deny(NoGrant) <==>
            && !Granted(s, Components(p))
            && (|| s.class_ in {SystemUpdater, SystemService}
                || (s.class_ in {UserApp, AiAgent, CompatibilityRuntime} && !ForeignHome(s, Components(p))))
  {
    hide WellFormed, Components, Evaluate, Immutable, Scratch, ForeignHome, OwnAppData, OwnInstall, Granted, Named;
    EvaluateByName(s, p, op);
    OneKind(p);
    OwnedIsNotService(p);
  }

  lemma OwnedIsNotService(p: Path)
    requires WellFormed(p) && Owned(Components(p))
    ensures !Named(Components(p), 0, "Services")
  {
    hide WellFormed, Components, Named;
    RootByName(p);
  }

  /** In the user's own home an application or Loko AI reads exactly what some grant leads to. */
  lemma GrantDecides(s: Subject, p: Path, op: Operation)
    requires WellFormed(p) && s.class_ in {UserApp, AiAgent} && op !in MUTATING
    requires s.user.Some? && Named(Components(p), 0, "Users") && Named(Components(p), 1, s.user.value)
    ensures Evaluate(s, p, op) ==
            if exists i :: 0 <= i < |s.grants| && Leads(Components(p), Components(s.grants[i])) then Allow
            else Deny(NoGrant)
  {
    hide WellFormed, Components, Evaluate, SameName, Leads;
    EvaluateByName(s, p, op);
    OneKind(p);
  }

  /** Another user's home is out of reach whatever was granted, except to the kernel and system roles. */
  lemma HomesAreSeparate(s: Subject, p: Path, op: Operation)
    requires WellFormed(p) && Named(Components(p), 0, "Users") && |Components(p)| > 1
    requires s.user.None? || !Named(Components(p), 1, s.user.value)
    ensures s.class_ in {UserShell, UserApp, SandboxedApp, AiAgent, CompatibilityRuntime} ==>
              Evaluate(s, p, op) == Deny(CrossUser)
    ensures s.class_ == Driver ==> Evaluate(s, p, op) == Deny(RoleForbidden)
  {
    hide WellFormed, Components, Evaluate, SameName, Granted;
    EvaluateByName(s, p, op);
    OneKind(p);
    HomeIsOnlyHome(p);
  }

  lemma HomeIsOnlyHome(p: Path)
    requires WellFormed(p) && Named(Components(p), 0, "Users")
    ensures !Named(Components(p), 0, "Services") && !Named(Components(p), 0, "Drivers")
    ensures !Named(Components(p), 0, "Logs") && !Named(Components(p), 0, "Temp")
  {
    hide WellFormed, Components, Named;
    RootByName(p);
  }

  /**
   Loko AI is meant never to change what exists without asking. Exactly in scratch space it may: the
   rule for Temp and Cache comes before the rule that asks.
   */
  lemma AiAsksExceptInScratch(s: Subject, p: Path, op: Operation)
    requires WellFormed(p) && s.class_ == AiAgent && op in DESTRUCTIVE
    ensures Evaluate(s, p, op) == Allow <==> Named(Components(p), 0, "Temp") || Named(Components(p), 0, "Cache")
    ensures Evaluate(s, p, op).Confirm? ==> Evaluate(s, p, op) == Confirm(AiInitiatedChange)
  {
    hide WellFormed, Components, Evaluate, Immutable, Owned, ForeignHome, Granted, Named;
    EvaluateByName(s, p, op);
    OneKind(p);
    OwnedForeign(s, p);
  }

  lemma OwnedForeign(s: Subject, p: Path)
    ensures ForeignHome(s, Components(p)) ==> Owned(Components(p))
  {
    hide Components;
  }

  /** A place where Loko AI overwrites without asking. */
  lemma AiWritesScratch()
    ensures
      var s := Subject(AiAgent, None, None, [], false);
      && Parse("LKO/Temp/x") == Success(Path("LKO/Temp/x", Some(Temp)))
      && Evaluate(s, Path("LKO/Temp/x", Some(Temp)), Write) == Allow
  {
    hide Parse, Evaluate, WellFormed, Components;
    ScratchParts();
    ScratchPlace();
    AiAsksExceptInScratch(Subject(AiAgent, None, None, [], false), Path("LKO/Temp/x", Some(Temp)), Write);
  }

  lemma ScratchPlace()
    ensures
      var p := Path("LKO/Temp/x", Some(Temp));
      WellFormed(p) && Named(Components(p), 0, "Temp")
  {
    hide Parse, WellFormed, Components, Tail, ParseRoot, Spells, JoinSlash, Display;
    ScratchParts();
    SpellingMeaning("LKO/Temp/x", ["Temp", "x"], Temp);
  }

  /**
   A change of permissions is meant to be always the user's decision. These are exactly the cases in
   which an earlier rule allows it unasked.
   */
  lemma PermissionChangeUnasked(s: Subject, p: Path)
    requires WellFormed(p)
    ensures Evaluate(s, p, ChangePermissions) == Allow <==>
            || s.class_ == Kernel
            || (Immutable(Components(p)) && s.class_ == SystemUpdater && s.updateTransactionOpen)
            || (s.class_ == Driver && (Named(Components(p), 0, "Logs") || Named(Components(p), 0, "Temp")))
            || (s.class_ != Driver && Scratch(Components(p)))
            || (s.class_ == SandboxedApp && OwnAppData(s, Components(p)))
  {
    hide WellFormed, Components, Evaluate, SameName, Granted;
    EvaluateByName(s, p, ChangePermissions);
    OneKind(p);
    RootsByKind(s, p);
    OwnedForeign(s, p);
    RootByName(p);
  }

  /** An application changes permissions in scratch space without the user being asked. */
  lemma AppChangesScratchPermissions()
    ensures
      var s := Subject(UserApp, None, None, [], false);
      && Parse("LKO/Temp/x") == Success(Path("LKO/Temp/x", Some(Temp)))
      && Evaluate(s, Path("LKO/Temp/x", Some(Temp)), ChangePermissions) == Allow
  {
    hide Parse, Evaluate, WellFormed, Components;
    ScratchParts();
    ScratchPlace();
    PermissionChangeUnasked(Subject(UserApp, None, None, [], false), Path("LKO/Temp/x", Some(Temp)));
  }
}
