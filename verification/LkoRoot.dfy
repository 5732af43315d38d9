/** The closed set of LKO roots, found by name without regard to ASCII case. */
module LkoRoot {
  import opened Results

  datatype Root =
    | System
    | Users
    | Apps
    | Drivers
    | Services
    | Runtime
    | Config
    | Data
    | Temp
    | Cache
    | Logs
    | Recovery
    | Boot
    | Ai
    | Linder
    | Lowser
    | Store
    | Compatibility
    | Dev

  datatype Protection = SystemImmutable | SystemManaged | UserOwned | Volatile

  const ALL: seq<Root> := [System, Users, Apps, Drivers, Services, Runtime, Config, Data, Temp, Cache, Logs, Recovery,
                           Boot, Ai, Linder, Lowser, Store, Compatibility, Dev]

  function Name(r: Root): string {
    match r
    case System => "System"
    case Users => "Users"
    case Apps => "Apps"
    case Drivers => "Drivers"
    case Services => "Services"
    case Runtime => "Runtime"
    case Config => "Config"
    case Data => "Data"
    case Temp => "Temp"
    case Cache => "Cache"
    case Logs => "Logs"
    case Recovery => "Recovery"
    case Boot => "Boot"
    case Ai => "AI"
    case Linder => "Linder"
    case Lowser => "Lowser"
    case Store => "Store"
    case Compatibility => "Compatibility"
    case Dev => "Dev"
  }

  function ProtectionOf(r: Root): Protection {
    match r
    case System | Drivers | Boot | Recovery => SystemImmutable
    case Users | Lowser => UserOwned
    case Temp | Cache => Volatile
    case _ => SystemManaged
  }

  // ----- ASCII case

  function Lower(c: char): char {
    if 'A' <= c <= 'Z' then c + 32 as char else c
  }

  /** Two characters fold alike exactly when they are equal or the two cases of one ASCII letter. */
  lemma LowerMeaning(c: char, d: char)
    ensures Lower(c) == Lower(d) <==>
            || c == d
            || ('A' <= c <= 'Z' && d as int == c as int + 32)
            || ('A' <= d <= 'Z' && c as int == d as int + 32)
  {
  }

  /** The text with ASCII capitals made small; other characters are left alone. */
  function Fold(s: string): (r: string)
    ensures |r| == |s| && forall i :: 0 <= i < |s| ==> r[i] == Lower(s[i])
  {
    seq(|s|, i requires 0 <= i < |s| => Lower(s[i]))
  }

  /** Equality without regard to ASCII case. */
  predicate SameName(a: string, b: string) {
    |a| == |b| && forall i :: 0 <= i < |a| ==> Lower(a[i]) == Lower(b[i])
  }

  lemma SameNameIsFold(a: string, b: string)
    ensures SameName(a, b) <==> Fold(a) == Fold(b)
  {
    if Fold(a) == Fold(b) {
      forall i | 0 <= i < |a|
        ensures Lower(a[i]) == Lower(b[i])
      {
        assert Fold(a)[i] == Fold(b)[i];
      }
    }
  }

  predicate IsAscii(s: string) {
    forall i :: 0 <= i < |s| ==> s[i] as int < 128
  }

  function Find(roots: seq<Root>, s: string): Option<Root> {
    if roots == [] then None
    else if SameName(Name(roots[0]), s) then Some(roots[0])
    else Find(roots[1..], s)
  }

  function ParseRoot(s: string): Option<Root> {
    if !IsAscii(s) then None else Find(ALL, s)
  }

  lemma {:induction false} FindMeaning(roots: seq<Root>, s: string)
    ensures Find(roots, s).Some? ==> Find(roots, s).value in roots && SameName(Name(Find(roots, s).value), s)
    ensures Find(roots, s).None? ==> forall r :: r in roots ==> !SameName(Name(r), s)
  {
    if roots != [] { FindMeaning(roots[1..], s); }
  }

  function Position(r: Root): (i: nat)
    ensures i < 19
  {
    match r
    case System => 0 case Users => 1 case Apps => 2 case Drivers => 3 case Services => 4 case Runtime => 5
    case Config => 6 case Data => 7 case Temp => 8 case Cache => 9 case Logs => 10 case Recovery => 11
    case Boot => 12 case Ai => 13 case Linder => 14 case Lowser => 15 case Store => 16 case Compatibility => 17
    case Dev => 18
  }

  lemma AllListed(r: Root)
    ensures r in ALL
  {
    assert ALL[Position(r)] == r;
  }

  /** Length and first two letters tell the roots apart. */
  function Signature(r: Root): (nat, char, char) {
    var n := Name(r);
    (|n|, Lower(n[0]), Lower(n[1]))
  }

  lemma SignaturesDiffer(r: Root, q: Root)
    requires Signature(r) == Signature(q)
    ensures r == q
  {
  }

  /** No two roots have the same name up to case, so a name finds its own root. */
  lemma RootNamesDistinct(r: Root, q: Root)
    requires SameName(Name(r), Name(q))
    ensures r == q
  {
    assert |Name(r)| >= 2;
    assert Signature(r) == Signature(q);
    SignaturesDiffer(r, q);
  }

  /** A text names a root exactly when it is that root's name up to ASCII case. */
  lemma ParseRootMeaning(s: string, r: Root)
    ensures ParseRoot(s) == Some(r) <==> SameName(s, Name(r))
  {
    hide Name;
    FindMeaning(ALL, s);
    AllListed(r);
    if SameName(s, Name(r)) {
      NameIsAscii(r, s);
      var q := Find(ALL, s).value;
      assert SameName(Name(q), Name(r));
      RootNamesDistinct(q, r);
    }
  }

  lemma NameIsAscii(r: Root, s: string)
    requires SameName(s, Name(r))
    ensures IsAscii(s)
  {
    assert IsAscii(Name(r));
    forall i | 0 <= i < |s|
      ensures s[i] as int < 128
    {
      assert Lower(s[i]) == Lower(Name(r)[i]);
    }
  }

  /** Changing case does not change which root is named. */
  lemma ParseRootFolds(s: string, t: string)
    requires SameName(s, t)
    ensures ParseRoot(s) == ParseRoot(t)
  {
    hide Name, ParseRoot;
    forall r: Root
      ensures ParseRoot(s) == Some(r) <==> ParseRoot(t) == Some(r)
    {
      ParseRootMeaning(s, r);
      ParseRootMeaning(t, r);
    }
    if ParseRoot(s).Some? { assert ParseRoot(t) == Some(ParseRoot(s).value); }
    if ParseRoot(t).Some? { assert ParseRoot(s) == Some(ParseRoot(t).value); }
  }
}
