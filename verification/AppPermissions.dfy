/** An application's permission record, and what any history of decisions leaves in it. */
module AppPermissions {
  import opened Results

  datatype Permission =
    | Files
    | Camera
    | Microphone
    | Network
    | Notifications
    | Clipboard
    | Location
    | Ai
    | SystemSettings
    | Bluetooth
    | ScreenCapture
    | RunAtLogin
  {
    predicate IsCovertCapable() { Camera? || Microphone? || Location? || ScreenCapture? || Clipboard? }

    /** The strongest grant a prompt can give. */
    function StrongestPromptGrant(): Grant { if IsCovertCapable() then WhileInUse else Always }
  }

  const COUNT: nat := 12

  /** Five permissions an application could use unnoticed. */
  const COVERT: set<Permission> := {Camera, Microphone, Location, ScreenCapture, Clipboard}

  /** What a prompt answered with `g` leaves: a covert permission is never granted for good. */
  function Prompted(p: Permission, g: Grant): Grant { if g == Always && p in COVERT then WhileInUse else g }

  /** The cap in the code is that. */
  lemma PromptCap(p: Permission, g: Grant)
    ensures g.Min(p.StrongestPromptGrant()) == Prompted(p, g)
  {
  }

  datatype Grant = Denied | Once | WhileInUse | Always {
    function Rank(): nat { match this case Denied => 0 case Once => 1 case WhileInUse => 2 case Always => 3 }

    function Min(other: Grant): Grant { if Rank() <= other.Rank() then this else other }

    predicate Permits(inForeground: bool) {
      match this
      case Denied => false
      case Once | WhileInUse => inForeground
      case Always => true
    }
  }

  datatype State = NotAsked | Decided(grant: Grant)
  datatype DenyReason = NotDeclared | UserRefused | NotInForeground | DisabledSystemWide
  datatype Outcome = Allow | Prompt | Deny(reason: DenyReason)

  /** Position of a permission: its discriminant less one. */
  function Index(p: Permission): (i: nat)
    ensures i < COUNT
  {
    match p
    case Files => 0
    case Camera => 1
    case Microphone => 2
    case Network => 3
    case Notifications => 4
    case Clipboard => 5
    case Location => 6
    case Ai => 7
    case SystemSettings => 8
    case Bluetooth => 9
    case ScreenCapture => 10
    case RunAtLogin => 11
  }

  lemma IndexInjective(p: Permission, q: Permission)
    requires Index(p) == Index(q)
    ensures p == q
  {
  }

  /** Something that happens to a record. */
  datatype Event = Decide(permission: Permission, grant: Grant) | Settings(permission: Permission, grant: Grant)
                 | Revoke(permission: Permission) | EndSession

  /** The state of `p` after one event. */
  function After(declared: bool, state: State, p: Permission, e: Event): State {
    match e
    case Decide(q, g) => if q == p && declared then Decided(Prompted(p, g)) else state
    case Settings(q, g) => if q == p && declared then Decided(g) else state
    case Revoke(q) => if q == p then Decided(Denied) else state
    case EndSession => if state == Decided(Once) then NotAsked else state
  }

  class Record {
    const declared: array<bool>
    const state: array<State>

    ghost predicate Valid()
      reads this
    {
      declared.Length == COUNT && state.Length == COUNT
    }

    ghost function StateOf(p: Permission): State
      requires Valid()
      reads this, state
    {
      state[Index(p)]
    }

    /** A record of what a manifest declares, nothing asked yet. */
    constructor (permissions: seq<Permission>)
      ensures Valid() && fresh(declared) && fresh(state)
      ensures forall p: Permission :: Declares(p) == (p in permissions)
      ensures forall p: Permission :: StateOf(p) == NotAsked
    {
      declared := new bool[COUNT](_ => false);
      state := new State[COUNT](_ => NotAsked);
      new;
      for k := 0 to |permissions|
        invariant forall p: Permission :: declared[Index(p)] == (p in permissions[..k])
        invariant forall i :: 0 <= i < COUNT ==> state[i] == NotAsked
      {
        declared[Index(permissions[k])] := true;
        forall p: Permission
          ensures declared[Index(p)] == (p in permissions[..k + 1])
        {
          if Index(p) == Index(permissions[k]) { IndexInjective(p, permissions[k]); }
          assert permissions[..k + 1] == permissions[..k] + [permissions[k]];
        }
      }
      assert permissions[..|permissions|] == permissions;
    }

    predicate Declares(p: Permission)
      requires Valid()
      reads this, declared
    {
      declared[Index(p)]
    }

    /** Every permission's state changes as `After` says, and what is declared does not change. */
    twostate predicate Follows(e: Event)
      requires old(Valid()) && Valid()
      reads this, state, declared
    {
      forall p: Permission :: StateOf(p) == After(Declares(p), old(StateOf(p)), p, e)
    }

    method DecideFor(permission: Permission, grant: Grant)
      requires Valid()
      modifies state
      ensures Valid() && Follows(Decide(permission, grant))
    {
      if !Declares(permission) {
        return;
      }
      PromptCap(permission, grant);
      var clamped := grant.Min(permission.StrongestPromptGrant());
      state[Index(permission)] := Decided(clamped);
      OthersKept(permission);
    }

    method SetFromSettings(permission: Permission, grant: Grant)
      requires Valid()
      modifies state
      ensures Valid() && Follows(Settings(permission, grant))
    {
      if !Declares(permission) {
        return;
      }
      state[Index(permission)] := Decided(grant);
      OthersKept(permission);
    }

    method RevokeNow(permission: Permission)
      requires Valid()
      modifies state
      ensures Valid() && Follows(Revoke(permission))
    {
      state[Index(permission)] := Decided(Denied);
      OthersKept(permission);
    }

    method EndTheSession()
      requires Valid()
      modifies state
      ensures Valid() && Follows(EndSession)
    {
      for i := 0 to COUNT
        invariant forall k :: 0 <= k < i ==>
                  state[k] == if old(state[k]) == Decided(Once) then NotAsked else old(state[k])
        invariant forall k :: i <= k < COUNT ==> state[k] == old(state[k])
      {
        if state[i] == Decided(Once) {
          state[i] := NotAsked;
        }
      }
    }

    twostate lemma OthersKept(permission: Permission)
      requires old(Valid()) && Valid()
      requires forall i :: 0 <= i < COUNT && i != Index(permission) ==> state[i] == old(state[i])
      ensures forall p: Permission :: p != permission ==> StateOf(p) == old(StateOf(p))
    {
      forall p: Permission | p != permission
        ensures StateOf(p) == old(StateOf(p))
      {
        if Index(p) == Index(permission) { IndexInjective(p, permission); }
      }
    }

    /** The answer to an attempt to use a permission now. */
    function Check(p: Permission, inForeground: bool, enabledSystemWide: bool): Outcome
      requires Valid()
      reads this, declared, state
    {
      Verdict(Declares(p), state[Index(p)], inForeground, enabledSystemWide)
    }

    /** Plays a history of events against the record. */
    method Play(events: seq<Event>)
      requires Valid()
      modifies state
      ensures Valid()
      ensures forall p: Permission :: StateOf(p) == AfterAll(Declares(p), old(StateOf(p)), p, events)
    {
      for k := 0 to |events|
        invariant Valid()
        invariant forall p: Permission :: StateOf(p) == AfterAll(Declares(p), old(StateOf(p)), p, events[..k])
      {
        assert events[..k + 1][..k] == events[..k];
        match events[k] {
          case Decide(p, g) => DecideFor(p, g);
          case Settings(p, g) => SetFromSettings(p, g);
          case Revoke(p) => RevokeNow(p);
          case EndSession => EndTheSession();
        }
      }
      assert events[..|events|] == events;
    }
  }

  /** Undeclared first, then the system-wide switch, then what the user decided. */
  function Verdict(declared: bool, state: State, inForeground: bool, enabledSystemWide: bool): Outcome {
    if !declared then Deny(NotDeclared)
    else if !enabledSystemWide then Deny(DisabledSystemWide)
    else if state == NotAsked then Prompt
    else if state.grant == Denied then Deny(UserRefused)
    else if state.grant.Permits(inForeground) then Allow
    else Deny(NotInForeground)
  }

  /** The state of `p` after a history of events. */
  function AfterAll(declared: bool, state: State, p: Permission, events: seq<Event>): State {
    if events == [] then state
    else After(declared, AfterAll(declared, state, p, events[..|events| - 1]), p, events[|events| - 1])
  }

  // ----- what a history leaves

  /** The event sets the state of `p`, whatever it was. */
  predicate Sets(declared: bool, p: Permission, e: Event) {
    match e
    case Decide(q, _) => q == p && declared
    case Settings(q, _) => q == p && declared
    case Revoke(q) => q == p
    case EndSession => false
  }

  /** The grant such an event leaves. */
  function Written(p: Permission, e: Event): Grant
    requires !e.EndSession?
  {
    match e
    case Decide(_, g) => Prompted(p, g)
    case Settings(_, g) => g
    case Revoke(_) => Denied
  }

  /** Event `k` is the last to set `p`. */
  ghost predicate LastSetter(declared: bool, p: Permission, events: seq<Event>, k: nat) {
    && k < |events| && Sets(declared, p, events[k])
    && forall j :: k < j < |events| ==> !Sets(declared, p, events[j])
  }

  /** What event `k` left is gone if it was for one session and a session has ended since. */
  ghost predicate Expired(p: Permission, events: seq<Event>, k: nat)
    requires k < |events| && !events[k].EndSession?
  {
    Written(p, events[k]) == Once && exists j :: k < j < |events| && events[j].EndSession?
  }

  /** The last event that set a permission fixes its state, one-time grants expiring with the session. */
  lemma {:induction false} LastSetterDecides(declared: bool, start: State, p: Permission, events: seq<Event>, k: nat)
    requires LastSetter(declared, p, events, k)
    ensures AfterAll(declared, start, p, events) == if Expired(p, events, k)
              then NotAsked else Decided(Written(p, events[k]))
    decreases |events|
  {
    var n := |events| - 1;
    var rest := events[..n];
    if k < n {
      LastSetterDecides(declared, start, p, rest, k);
      assert rest[k] == events[k];
      assert !Sets(declared, p, events[n]);
      if Expired(p, rest, k) {
        var j :| k < j < |rest| && rest[j].EndSession?;
        assert events[j].EndSession?;
      }
      if Expired(p, events, k) && !events[n].EndSession? {
        var j :| k < j < |events| && events[j].EndSession?;
        assert rest[j].EndSession?;
      }
    }
  }

  /** A permission no event has set is as it was, but for a one-time grant that has expired. */
  lemma {:induction false} UnsetIsUnchanged(declared: bool, start: State, p: Permission, events: seq<Event>)
    requires forall j :: 0 <= j < |events| ==> !Sets(declared, p, events[j])
    ensures AfterAll(declared, start, p, events) ==
            if start == Decided(Once) && exists j :: 0 <= j < |events| && events[j].EndSession? then NotAsked else start
    decreases |events|
  {
    if events != [] {
      var n := |events| - 1;
      UnsetIsUnchanged(declared, start, p, events[..n]);
      assert forall j :: 0 <= j < n ==> events[..n][j] == events[j];
      assert !Sets(declared, p, events[n]);
    }
  }

  lemma {:induction false} SomeLastSetter(declared: bool, p: Permission, events: seq<Event>) returns (k: Option<nat>)
    ensures k.None? ==> forall j :: 0 <= j < |events| ==> !Sets(declared, p, events[j])
    ensures k.Some? ==> LastSetter(declared, p, events, k.value)
    decreases |events|
  {
    if events == [] {
      k := None;
    } else if Sets(declared, p, events[|events| - 1]) {
      k := Some(|events| - 1);
    } else {
      k := SomeLastSetter(declared, p, events[..|events| - 1]);
      assert forall j :: 0 <= j < |events| - 1 ==> events[..|events| - 1][j] == events[j];
    }
  }

  /**
   A permission that can be used unnoticed works in the background only after Settings granted it for
   good, and only while nothing has changed it since.
   */
  lemma {:induction false} CovertInBackground(declared: bool, p: Permission, events: seq<Event>)
    requires p in {Camera, Microphone, Location, ScreenCapture, Clipboard}
    ensures Verdict(declared, AfterAll(declared, NotAsked, p, events), false, true) == Allow <==>
            exists k: nat :: LastSetter(declared, p, events, k) && declared && events[k] == Settings(p, Always)
  {
    var last := SomeLastSetter(declared, p, events);
    if last.None? {
      UnsetIsUnchanged(declared, NotAsked, p, events);
    } else {
      LastSetterDecides(declared, NotAsked, p, events, last.value);
      forall k: nat | LastSetter(declared, p, events, k)
        ensures k == last.value
      {
      }
    }
  }

  /** After a prompt answered with Always, a permission works in the background exactly if it is not covert. */
  lemma {:induction false} PromptedAlways(p: Permission, events: seq<Event>, k: nat)
    requires LastSetter(true, p, events, k) && events[k] == Decide(p, Always)
    ensures Verdict(true, AfterAll(true, NotAsked, p, events), false, true) == Allow <==>
            p !in {Camera, Microphone, Location, ScreenCapture, Clipboard}
    ensures Verdict(true, AfterAll(true, NotAsked, p, events), true, true) == Allow
  {
    LastSetterDecides(true, NotAsked, p, events, k);
  }

  /** After a refusal or a revocation the application is not prompted again until the user acts. */
  lemma {:induction false} RefusalIsRemembered(declared: bool, p: Permission, events: seq<Event>, k: nat,
                                               inForeground: bool)
    requires LastSetter(declared, p, events, k) && Written(p, events[k]) == Denied && declared
    ensures Verdict(declared, AfterAll(declared, NotAsked, p, events), inForeground, true) == Deny(UserRefused)
  {
    LastSetterDecides(declared, NotAsked, p, events, k);
  }

  /** Event `k` is the last to set a declared permission, and what it left still stands. */
  ghost predicate Standing(p: Permission, events: seq<Event>, k: nat) {
    LastSetter(true, p, events, k) && !Expired(p, events, k)
  }

  /** The state of a declared permission is what the standing event left; without one nothing is asked yet. */
  lemma StandingDecides(p: Permission, events: seq<Event>)
    ensures forall k: nat :: Standing(p, events, k) ==>
              AfterAll(true, NotAsked, p, events) == Decided(Written(p, events[k]))
    ensures AfterAll(true, NotAsked, p, events) == NotAsked <==> forall k: nat :: !Standing(p, events, k)
  {
    hide Expired, AfterAll, Written;
    var last := SomeLastSetter(true, p, events);
    if last.None? {
      UnsetIsUnchanged(true, NotAsked, p, events);
    } else {
      LastSetterDecides(true, NotAsked, p, events, last.value);
      assert Standing(p, events, last.value) <==> !Expired(p, events, last.value);
      forall k: nat | LastSetter(true, p, events, k)
        ensures k == last.value
      {
      }
    }
  }

  /**
   An application's whole life with one permission: its manifest is read, a history of events happens,
   and it tries to use the permission.
   */
  method UseAfter(manifest: seq<Permission>, events: seq<Event>, p: Permission, inForeground: bool, enabled: bool)
    returns (outcome: Outcome)
    ensures outcome == Deny(NotDeclared) <==> p !in manifest
    ensures outcome == Deny(DisabledSystemWide) <==> p in manifest && !enabled
    ensures outcome == Prompt <==> p in manifest && enabled && forall k: nat :: !Standing(p, events, k)
    ensures outcome == Allow <==>
            && p in manifest && enabled
            && exists k: nat :: && Standing(p, events, k)
                                && (if inForeground
                                    then Written(p, events[k]) != Denied else Written(p, events[k]) == Always)
    ensures outcome == Deny(UserRefused) <==>
            p in manifest && enabled && exists k: nat :: Standing(p, events, k) && Written(p, events[k]) == Denied
    ensures p in {Camera, Microphone, Location, ScreenCapture, Clipboard} && !inForeground ==>
              (outcome == Allow <==>
                && p in manifest && enabled
                && exists k: nat :: LastSetter(true, p, events, k) && events[k] == Settings(p, Always))
  {
    hide AfterAll, Standing, LastSetter, Written;
    var record := new Record(manifest);
    record.Play(events);
    StandingDecides(p, events);
    if AfterAll(true, NotAsked, p, events) != NotAsked { StandingExists(p, events); }
    if p in {Camera, Microphone, Location, ScreenCapture, Clipboard} { CovertInBackground(true, p, events); }
    outcome := record.Check(p, inForeground, enabled);
  }

  /** A decided state is what some standing event left. */
  lemma StandingExists(p: Permission, events: seq<Event>)
    requires AfterAll(true, NotAsked, p, events) != NotAsked
    ensures exists k: nat :: Standing(p, events, k)
              && AfterAll(true, NotAsked, p, events) == Decided(Written(p, events[k]))
  {
    StandingDecides(p, events);
  }
}
