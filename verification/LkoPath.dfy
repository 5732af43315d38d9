/**
 LKO paths: parsing in two spellings, printing in one, walking up, and containment. Text is a sequence
 of characters; lengths are counted in UTF-8 bytes, as the limits are.
 */
module LkoPath {
  import opened Results
  import opened LkoRoot

  const MAX_PATH_LEN: nat := 4096
  const MAX_COMPONENT_LEN: nat := 255
  const PREFIX: string := "LKO"

  datatype PathError =
    | MissingRoot
    | UnknownRoot
    | TooLong
    | ComponentTooLong
    | EmptyComponent
    | RelativeComponent
    | BackslashSeparator
    | SeparatorInName
    | ControlCharacter
    | BidirectionalOverride
    | TrailingSpaceOrDot
    | NonAsciiRoot

  /** A path: the text as given and the root it is under, if any. */
  datatype Path = Path(raw: string, root: Option<Root>)

  const ROOT := Path(PREFIX, None)

  // ----- text

  function Utf8Len(c: char): nat {
    var n := c as int;
    if n < 0x80 then 1 else if n < 0x800 then 2 else if n < 0x1_0000 then 3 else 4
  }

  function ByteLen(s: string): nat {
    if s == [] then 0 else Utf8Len(s[0]) + ByteLen(s[1..])
  }

  lemma {:induction false} ByteLenAppend(a: string, b: string)
    ensures ByteLen(a + b) == ByteLen(a) + ByteLen(b)
  {
    if a == [] {
      assert a + b == b;
    } else {
      ByteLenAppend(a[1..], b);
      assert (a + b)[1..] == a[1..] + b;
    }
  }

  /** The UTF-8 form of a code point (section 3 of RFC 3629). */
  function Utf8(n: int): seq<int>
    requires 0 <= n < 0x20_0000
  {
    if n < 0x80 then [n]
    else if n < 0x800 then [0xC0 + n / 64, 0x80 + n % 64]
    else if n < 0x1_0000 then [0xE0 + n / 64 / 64, 0x80 + n / 64 % 64, 0x80 + n % 64]
    else [0xF0 + n / 64 / 64 / 64, 0x80 + n / 64 / 64 % 64, 0x80 + n / 64 % 64, 0x80 + n % 64]
  }

  /** The code point read back: the lead byte tells how many bytes follow. */
  function FromUtf8(b: seq<int>): int {
    if |b| == 1 && b[0] < 0x80 then b[0]
    else if |b| == 2 && 0xC0 <= b[0] < 0xE0 then (b[0] - 0xC0) * 64 + (b[1] - 0x80)
    else if |b| == 3 && 0xE0 <= b[0] < 0xF0 then (b[0] - 0xE0) * 4096 + (b[1] - 0x80) * 64 + (b[2] - 0x80)
    else if |b| == 4 && 0xF0 <= b[0] < 0xF8 then
      (b[0] - 0xF0) * 0x4_0000 + (b[1] - 0x80) * 4096 + (b[2] - 0x80) * 64 + (b[3] - 0x80)
    else -1
  }

  /** A character counts as many bytes as its UTF-8 form has, and that form reads back as the character. */
  lemma Utf8Length(c: char)
    ensures |Utf8(c as int)| == Utf8Len(c) && FromUtf8(Utf8(c as int)) == c as int
  {
  }

  /** The pieces of `s` between separators; always at least one. */
  function Split(s: string): (r: seq<string>)
    ensures |r| > 0
  {
    if s == [] then [[]]
    else
      var rest := Split(s[1..]);
      if s[0] == '/' then [[]] + rest else [[s[0]] + rest[0]] + rest[1..]
  }

  function JoinSlash(cs: seq<string>): string
    requires |cs| > 0
  {
    if |cs| == 1 then cs[0] else cs[0] + "/" + JoinSlash(cs[1..])
  }

  predicate NoSlash(cs: seq<string>) {
    forall c :: c in cs ==> '/' !in c
  }

  lemma {:induction false} JoinOfSplit(s: string)
    ensures JoinSlash(Split(s)) == s && NoSlash(Split(s))
  {
    if s != [] {
      JoinOfSplit(s[1..]);
      var rest, all := Split(s[1..]), Split(s);
      assert s == [s[0]] + s[1..];
      if s[0] == '/' {
        assert all[1..] == rest;
      } else {
        assert all[0] == [s[0]] + rest[0] && all[1..] == rest[1..];
      }
    }
  }

  lemma {:induction false} SplitPrefix(c: string, s: string)
    requires '/' !in c
    ensures Split(c + s) == [c + Split(s)[0]] + Split(s)[1..]
  {
    var pieces := Split(s);
    if c == [] {
      assert c + s == s && c + pieces[0] == pieces[0];
      assert pieces == [pieces[0]] + pieces[1..];
    } else {
      SplitPrefix(c[1..], s);
      assert (c + s)[1..] == c[1..] + s;
      assert [c[0]] + (c[1..] + pieces[0]) == c + pieces[0];
    }
  }

  lemma {:induction false} SplitOfJoin(cs: seq<string>)
    requires |cs| > 0 && NoSlash(cs)
    ensures Split(JoinSlash(cs)) == cs
  {
    assert cs[0] in cs;
    if |cs| == 1 {
      SplitPrefix(cs[0], []);
      assert cs[0] + [] == cs[0];
      assert Split([]) == [[]];
    } else {
      var rest := JoinSlash(cs[1..]);
      SplitOfJoin(cs[1..]);
      assert cs[0] + "/" + rest == cs[0] + ("/" + rest);
      assert ("/" + rest)[1..] == rest;
      SplitPrefix(cs[0], "/" + rest);
      assert Split("/" + rest)[0] == [] && Split("/" + rest)[1..] == cs[1..];
      assert cs[0] + [] == cs[0];
      assert cs == [cs[0]] + cs[1..];
    }
  }

  /** Position of the last separator. */
  function LastSlash(s: string): (r: Option<nat>)
    ensures r.Some? ==> r.value < |s| && s[r.value] == '/'
  {
    if s == [] then None
    else if s[|s| - 1] == '/' then Some(|s| - 1)
    else LastSlash(s[..|s| - 1])
  }

  lemma {:induction false} LastSlashAfter(a: string, c: string)
    requires '/' !in c
    ensures LastSlash(a + "/" + c) == Some(|a|)
  {
    var s := a + "/" + c;
    if c != [] {
      var n := |c| - 1;
      assert s[..|s| - 1] == a + "/" + c[..n];
      LastSlashAfter(a, c[..n]);
    }
  }

  lemma {:induction false} NoLastSlash(c: string)
    requires '/' !in c
    ensures LastSlash(c).None?
  {
    if c != [] { NoLastSlash(c[..|c| - 1]); }
  }

  /** Joining all but the last piece, then the last. */
  lemma {:induction false} JoinLast(cs: seq<string>)
    requires |cs| > 1
    ensures JoinSlash(cs) == JoinSlash(cs[..|cs| - 1]) + "/" + cs[|cs| - 1]
  {
    var n := |cs| - 1;
    if |cs| > 2 {
      JoinLast(cs[1..]);
      assert cs[1..][..n - 1] == cs[..n][1..];
    }
  }

  // ----- components

  predicate IsControl(c: char) {
    var n := c as int;
    n < 0x20 || 0x7F <= n < 0xA0
  }

  predicate IsLineSeparator(c: char) { c as int == 0x2028 || c as int == 0x2029 }

  predicate IsBidirectional(c: char) {
    var n := c as int;
    0x202A <= n <= 0x202E || 0x2066 <= n <= 0x2069 || n == 0x200E || n == 0x200F
  }

  /** The fault of the first character that may not be stored. */
  function FirstFault(s: string): Option<PathError> {
    if s == [] then None
    else if IsControl(s[0]) || IsLineSeparator(s[0]) then Some(ControlCharacter)
    else if IsBidirectional(s[0]) then Some(BidirectionalOverride)
    else FirstFault(s[1..])
  }

  function ValidateComponent(c: string): Result<Done, PathError> {
    if c == [] then Failure(EmptyComponent)
    else if ByteLen(c) > MAX_COMPONENT_LEN then Failure(ComponentTooLong)
    else if c == "." || c == ".." then Failure(RelativeComponent)
    else if '\\' in c then Failure(BackslashSeparator)
    else if '/' in c then Failure(SeparatorInName)
    else if FirstFault(c).Some? then Failure(FirstFault(c).value)
    else if c[|c| - 1] == ' ' || c[|c| - 1] == '.' then Failure(TrailingSpaceOrDot)
    else Success(Done)
  }

  /** The code points that reorder rendering: marks, embeddings and overrides, isolates. */
  const REORDERING: set<int> :=
    {0x200E, 0x200F, 0x202A, 0x202B, 0x202C, 0x202D, 0x202E, 0x2066, 0x2067, 0x2068, 0x2069}

  /** A code point a name may hold: no control of either range, no line or paragraph separator, no reordering. */
  predicate Storable(c: char) {
    var n := c as int;
    !(0 <= n <= 31) && !(127 <= n <= 159) && n != 0x2028 && n != 0x2029 && n !in REORDERING
  }

  /** What a stored name may be. */
  predicate ValidComponent(c: string) {
    && 0 < |c| && ByteLen(c) <= 255
    && '\\' !in c && '/' !in c
    && (forall i :: 0 <= i < |c| ==> Storable(c[i]))
    && c[|c| - 1] != ' ' && c[|c| - 1] != '.'
  }

  lemma StorableMeaning(c: char)
    ensures Storable(c) <==> !IsControl(c) && !IsLineSeparator(c) && !IsBidirectional(c)
    ensures IsBidirectional(c) <==> c as int in REORDERING
    ensures IsBidirectional(c) ==> !IsControl(c) && !IsLineSeparator(c)
  {
  }

  /** Character `i` is the first that may not be stored, and `e` says why. */
  ghost predicate FirstUnstorable(s: string, i: nat, e: PathError) {
    && i < |s| && !Storable(s[i]) && (forall j :: 0 <= j < i ==> Storable(s[j]))
    && e == if s[i] as int in REORDERING then BidirectionalOverride else ControlCharacter
  }

  /** The fault reported is that of the first character that may not be stored. */
  lemma {:induction false} FirstFaultMeaning(s: string)
    ensures FirstFault(s).None? <==> forall i :: 0 <= i < |s| ==> Storable(s[i])
    ensures FirstFault(s).Some? ==> exists i: nat :: FirstUnstorable(s, i, FirstFault(s).value)
  {
    hide Storable, IsControl, IsLineSeparator, IsBidirectional;
    if s != [] {
      StorableMeaning(s[0]);
      FirstFaultMeaning(s[1..]);
      assert forall i :: 0 <= i < |s[1..]| ==> s[1..][i] == s[i + 1];
      if !Storable(s[0]) {
        assert FirstUnstorable(s, 0, FirstFault(s).value);
      } else if FirstFault(s).Some? {
        var i: nat :| FirstUnstorable(s[1..], i, FirstFault(s).value);
        assert FirstUnstorable(s, i + 1, FirstFault(s).value);
      } else {
        forall i | 0 <= i < |s|
          ensures Storable(s[i])
        {
          if i > 0 { assert s[i] == s[1..][i - 1]; }
        }
      }
    }
  }

  /** The checks in order accept exactly the valid names. */
  lemma ComponentAccepted(c: string)
    ensures ValidateComponent(c).Success? <==> ValidComponent(c)
  {
    hide FirstFault, Storable;
    FirstFaultMeaning(c);
  }

  /** A refused name has the fault that is reported. */
  lemma ComponentFault(c: string)
    ensures ValidateComponent(c) == Failure(EmptyComponent) <==> c == ""
    ensures ValidateComponent(c) == Failure(ComponentTooLong) <==> ByteLen(c) > MAX_COMPONENT_LEN
    ensures ValidateComponent(c) == Failure(RelativeComponent) <==> c == "." || c == ".."
    ensures ValidateComponent(c) == Failure(BackslashSeparator) <==> ByteLen(c) <= MAX_COMPONENT_LEN && '\\' in c
    ensures ValidateComponent(c) == Failure(SeparatorInName) <==>
            ByteLen(c) <= MAX_COMPONENT_LEN && '\\' !in c && '/' in c
    ensures ValidateComponent(c) == Failure(ControlCharacter)
              || ValidateComponent(c) == Failure(BidirectionalOverride) ==>
              exists i: nat :: FirstUnstorable(c, i, ValidateComponent(c).error)
    ensures ValidateComponent(c) == Failure(TrailingSpaceOrDot) ==>
              |c| > 0 && (c[|c| - 1] == ' ' || c[|c| - 1] == '.') && forall i :: 0 <= i < |c| ==> Storable(c[i])
  {
    hide FirstFault, Storable, FirstUnstorable;
    FirstFaultMeaning(c);
    FaultIsOfCharacter(c);
    DotsAreShort();
  }

  lemma {:induction false} FaultIsOfCharacter(s: string)
    ensures FirstFault(s).Some? ==> FirstFault(s).value in {ControlCharacter, BidirectionalOverride}
  {
    if s != [] { FaultIsOfCharacter(s[1..]); }
  }

  lemma DotsAreShort()
    ensures ByteLen("") == 0 && ByteLen(".") == 1 && ByteLen("..") == 2
  {
    assert "."[1..] == "" && ".."[1..] == ".";
  }

  predicate AllValid(cs: seq<string>) {
    forall c :: c in cs ==> ValidComponent(c)
  }

  /** The first of several names that is refused. */
  function FirstRefused(cs: seq<string>): Option<PathError> {
    if cs == [] then None
    else if ValidateComponent(cs[0]).Failure? then Some(ValidateComponent(cs[0]).error)
    else FirstRefused(cs[1..])
  }

  lemma {:induction false} FirstRefusedMeaning(cs: seq<string>)
    ensures FirstRefused(cs).None? <==> AllValid(cs)
  {
    hide ValidComponent;
    if cs != [] {
      ComponentAccepted(cs[0]);
      FirstRefusedMeaning(cs[1..]);
      assert forall c :: c in cs <==> c == cs[0] || c in cs[1..];
    }
  }

  // ----- parsing

  /** The text after the volume prefix in any ASCII case, if it is there. */
  function StripPrefix(s: string): Option<string> {
    if |s| >= 3 && SameName(s[..3], PREFIX) then Some(s[3..]) else None
  }

  function StripTrailing(s: string): string {
    if s != [] && s[|s| - 1] == '/' then s[..|s| - 1] else s
  }

  /** What follows the prefix in either spelling: nothing, a body, or no valid start. */
  function AfterPrefix(input: string): Result<Option<string>, PathError> {
    match StripPrefix(input)
    case Some(rest) =>
      if rest == [] then Success(None)
      else if rest[0] == '/' then Success(Some(rest[1..]))
      else Failure(MissingRoot)
    case None =>
      if input != [] && input[0] == '/' then Success(Some(input[1..])) else Failure(MissingRoot)
  }

  function Parse(input: string): Result<Path, PathError> {
    if ByteLen(input) > MAX_PATH_LEN then Failure(TooLong)
    else if '\\' in input then Failure(BackslashSeparator)
    else
      match AfterPrefix(input)
      case Failure(e) => Failure(e)
      case Success(None) => Success(ROOT)
      case Success(Some(rest)) =>
        var body := StripTrailing(rest);
        if body == [] then Success(ROOT)
        else
          var parts := Split(body);
          if ValidateComponent(parts[0]).Failure? then Failure(ValidateComponent(parts[0]).error)
          else if !IsAscii(parts[0]) then Failure(NonAsciiRoot)
          else if ParseRoot(parts[0]).None? then Failure(UnknownRoot)
          else if FirstRefused(parts[1..]).Some? then Failure(FirstRefused(parts[1..]).value)
          else Success(Path(input, ParseRoot(parts[0])))
  }

  /** The components of a raw text, still joined: its prefix and outer separators removed. */
  function CanonicalBody(raw: string): string {
    var rest := match StripPrefix(raw) case Some(r) => r case None => raw;
    var rest := if rest != [] && rest[0] == '/' then rest[1..] else rest;
    StripTrailing(rest)
  }

  function DropEmpty(cs: seq<string>): seq<string> {
    if cs == [] then [] else (if cs[0] == [] then [] else [cs[0]]) + DropEmpty(cs[1..])
  }

  function Components(p: Path): seq<string> { DropEmpty(Split(CanonicalBody(p.raw))) }

  /** The components after the root. */
  function Tail(p: Path): seq<string> { DropEmpty(Split(CanonicalBody(p.raw))[1..]) }

  function Depth(p: Path): nat { |Components(p)| }

  /** The printed form, always in the canonical spelling. */
  function Display(p: Path): string {
    var body := CanonicalBody(p.raw);
    if body == [] then PREFIX else PREFIX + "/" + body
  }

  /** The same path, spelled as it prints. */
  function ToOwned(p: Path): Path { Path(Display(p), p.root) }

  /** Maps an offset in the canonical spelling to one in the raw text, which may omit the prefix. */
  function RawOffset(raw: string, offset: nat): nat
    requires StripPrefix(raw).Some? || offset >= 3
  {
    if StripPrefix(raw).Some? then offset else offset - 3
  }

  function JoinPath(p: Path, c: string): Result<Path, PathError> {
    if ValidateComponent(c).Failure? then Failure(ValidateComponent(c).error)
    else if ByteLen(p.raw) + 1 + ByteLen(c) > MAX_PATH_LEN then Failure(TooLong)
    else if p.root.Some? then Success(Path(p.raw + "/" + c, p.root))
    else if ParseRoot(c).None? then Failure(UnknownRoot)
    else Success(Path(p.raw + "/" + c, ParseRoot(c)))
  }

  // ----- well-formed paths

  /** Valid components under a known root. */
  predicate ValidParts(cs: seq<string>, root: Root) {
    |cs| > 0 && AllValid(cs) && ParseRoot(cs[0]) == Some(root)
  }

  /** The text starts with the letters LKO in any case. */
  predicate Prefixed(raw: string) { |raw| >= 3 && SameName(raw[..3], "LKO") }

  /** `raw` spells `body`: with the prefix or a leading separator, and perhaps a trailing one. */
  predicate Spells(raw: string, body: string) {
    || (Prefixed(raw) && (raw[3..] == "/" + body || raw[3..] == "/" + body + "/"))
    || raw == "/" + body || raw == "/" + body + "/"
  }

  /** Every path value that parsing, joining or walking up can produce. */
  predicate WellFormed(p: Path) {
    if p.root.None? then p == ROOT
    else ValidParts(Components(p), p.root.value) && Spells(p.raw, JoinSlash(Components(p)))
  }

  lemma {:induction false} DropEmptyKeepsValid(cs: seq<string>)
    requires AllValid(cs)
    ensures DropEmpty(cs) == cs
  {
    hide ValidComponent;
    if cs != [] {
      assert cs[0] in cs;
      ValidIsText(cs[0]);
      DropEmptyKeepsValid(cs[1..]);
    }
  }

  lemma ValidIsText(c: string)
    requires ValidComponent(c)
    ensures c != [] && '/' !in c && '\\' !in c
  {
  }

  lemma ValidHasNoSlash(cs: seq<string>)
    requires AllValid(cs)
    ensures NoSlash(cs)
  {
  }

  /** A body of valid components neither starts nor ends with a separator. */
  lemma {:induction false} BodyEnds(cs: seq<string>)
    requires |cs| > 0 && AllValid(cs)
    ensures JoinSlash(cs) != [] && JoinSlash(cs)[0] != '/' && JoinSlash(cs)[|JoinSlash(cs)| - 1] != '/'
  {
    hide ValidComponent;
    assert cs[0] in cs;
    ValidIsText(cs[0]);
    if |cs| > 1 { BodyEnds(cs[1..]); }
  }

  /** The body read back from a raw text is the body it spells. */
  lemma BodyOfSpelling(raw: string, cs: seq<string>)
    requires |cs| > 0 && AllValid(cs) && Spells(raw, JoinSlash(cs))
    ensures CanonicalBody(raw) == JoinSlash(cs)
  {
    hide ValidComponent, AllValid, JoinSlash, SameName;
    var body := JoinSlash(cs);
    BodyEnds(cs);
    if StripPrefix(raw).Some? && (raw[3..] == "/" + body || raw[3..] == "/" + body + "/") {
      var rest := raw[3..];
      assert rest[1..] == body || rest[1..] == body + "/";
      assert (body + "/")[..|body|] == body;
    } else {
      SlashIsNoPrefix(raw);
      assert raw[1..] == body || raw[1..] == body + "/";
      assert (body + "/")[..|body|] == body;
    }
  }

  lemma SlashIsNoPrefix(raw: string)
    requires raw != [] && raw[0] == '/'
    ensures StripPrefix(raw).None?
  {
    if |raw| >= 3 { assert Lower(raw[..3][0]) != Lower(PREFIX[0]); }
  }

  /** What a well-formed spelling means: its components are the ones spelled. */
  lemma SpellingMeaning(raw: string, cs: seq<string>, root: Root)
    requires ValidParts(cs, root) && Spells(raw, JoinSlash(cs))
    ensures WellFormed(Path(raw, Some(root))) && Components(Path(raw, Some(root))) == cs
    ensures Tail(Path(raw, Some(root))) == cs[1..]
    ensures Display(Path(raw, Some(root))) == PREFIX + "/" + JoinSlash(cs)
  {
    hide ValidComponent, Spells, CanonicalBody, ParseRoot, JoinSlash, Split;
    BodyOfSpelling(raw, cs);
    ValidHasNoSlash(cs);
    SplitOfJoin(cs);
    DropEmptyKeepsValid(cs);
    BodyEnds(cs);
    assert forall c :: c in cs[1..] ==> c in cs;
    DropEmptyKeepsValid(cs[1..]);
  }

  /** One step up: the raw text cut at its last separator. */
  function Parent(p: Path): Option<Path>
    requires WellFormed(p)
  {
    var body := CanonicalBody(p.raw);
    if body == [] then None
    else
      match LastSlash(body)
      case Some(index) =>
        SliceInBounds(p, index);
        Some(Path(p.raw[..RawOffset(p.raw, 3 + 1 + index)], p.root))
      case None => Some(ROOT)
  }


  lemma SliceInBounds(p: Path, index: nat)
    requires WellFormed(p) && index < |CanonicalBody(p.raw)|
    ensures RawOffset(p.raw, 3 + 1 + index) <= |p.raw|
  {
    hide ValidComponent, Split, DropEmpty, SameName;
    if p.root.Some? {
      BodyOfSpelling(p.raw, Components(p));
    } else {
      RootBody();
    }
  }

  lemma RootBody()
    ensures CanonicalBody(PREFIX) == [] && Components(ROOT) == [] && Tail(ROOT) == [] && Display(ROOT) == PREFIX
  {
    assert PREFIX[..3] == PREFIX && PREFIX[3..] == [];
    assert StripPrefix(PREFIX) == Some([]);
    assert Split([]) == [[]];
    assert DropEmpty([[]]) == [] + DropEmpty([]);
  }
}
