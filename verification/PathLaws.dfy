/** Laws of LKO paths: parsing against printing, joining against walking up, containment as ancestry. */
module PathLaws {
  import opened Results
  import opened LkoRoot
  import opened LkoPath

  // ----- parsing

  lemma {:induction false} JoinHasNoBackslash(cs: seq<string>)
    requires |cs| > 0 && AllValid(cs)
    ensures '\\' !in JoinSlash(cs)
  {
    hide ValidComponent;
    assert cs[0] in cs;
    ValidIsText(cs[0]);
    if |cs| > 1 { JoinHasNoBackslash(cs[1..]); }
  }

  lemma SpellingHasNoBackslash(raw: string, cs: seq<string>)
    requires |cs| > 0 && AllValid(cs) && Spells(raw, JoinSlash(cs))
    ensures '\\' !in raw
  {
    hide ValidComponent, JoinSlash, AllValid;
    JoinHasNoBackslash(cs);
    if StripPrefix(raw).Some? && (raw[3..] == "/" + JoinSlash(cs) || raw[3..] == "/" + JoinSlash(cs) + "/") {
      assert raw == raw[..3] + raw[3..];
      forall c | c in raw[..3]
        ensures c != '\\'
      {
        var i :| 0 <= i < 3 && raw[..3][i] == c;
        assert Lower(raw[..3][i]) == Lower(PREFIX[i]);
      }
    }
  }

  lemma AfterSpelling(raw: string, cs: seq<string>)
    requires |cs| > 0 && AllValid(cs) && Spells(raw, JoinSlash(cs))
    ensures AfterPrefix(raw).Success? && AfterPrefix(raw).value.Some?
    ensures StripTrailing(AfterPrefix(raw).value.value) == JoinSlash(cs)
  {
    hide ValidComponent, AllValid, JoinSlash, SameName;
    var body := JoinSlash(cs);
    BodyEnds(cs);
    if StripPrefix(raw).Some? && (raw[3..] == "/" + body || raw[3..] == "/" + body + "/") {
      var rest := raw[3..];
      assert rest[1..] == body || rest[1..] == body + "/";
      assert (body + "/")[..|body|] == body;
    } else {
      SlashIsNoPrefix(raw);
      assert raw[1..] == body || raw[1..] == body + "/";
      assert (body + "/")[..|body|] == body;
    }
  }

  /** Every spelling of valid components under a known root parses, as long as it is short enough. */
  lemma SpellingParses(raw: string, cs: seq<string>, root: Root)
    requires ValidParts(cs, root) && Spells(raw, JoinSlash(cs)) && ByteLen(raw) <= MAX_PATH_LEN
    ensures Parse(raw) == Success(Path(raw, Some(root)))
  {
    hide ValidComponent, Spells, AfterPrefix, ParseRoot, JoinSlash, Split, ValidateComponent, FirstRefused, IsAscii;
    SpellingHasNoBackslash(raw, cs);
    AfterSpelling(raw, cs);
    BodyEnds(cs);
    ValidHasNoSlash(cs);
    SplitOfJoin(cs);
    assert cs[0] in cs;
    ComponentAccepted(cs[0]);
    RootIsAscii(cs[0]);
    assert forall c :: c in cs[1..] ==> c in cs;
    FirstRefusedMeaning(cs[1..]);
  }

  lemma RootIsAscii(s: string)
    ensures ParseRoot(s).Some? ==> IsAscii(s)
  {
  }

  lemma StripTrailingCases(s: string)
    ensures s == StripTrailing(s) || s == StripTrailing(s) + "/"
  {
  }

  lemma SpellsAfter(input: string, rest: string)
    requires AfterPrefix(input) == Success(Some(rest))
    ensures Spells(input, StripTrailing(rest))
  {
    hide SameName;
    StripTrailingCases(rest);
    var body := StripTrailing(rest);
    match StripPrefix(input) {
      case Some(after) =>
        assert after == input[3..] == "/" + rest;
        assert "/" + (body + "/") == "/" + body + "/";
      case None =>
        assert input == "/" + rest;
        assert "/" + (body + "/") == "/" + body + "/";
    }
  }

  /** A path that parses is the volume root, or keeps its text and has valid components under a root. */
  lemma ParsedIsWellFormed(input: string)
    requires Parse(input).Success?
    ensures WellFormed(Parse(input).value)
    ensures Parse(input).value == ROOT || Parse(input).value.raw == input
  {
    hide ValidComponent, Spells, AfterPrefix, ParseRoot, JoinSlash, Split, ValidateComponent, FirstRefused;
    hide StripTrailing, Components;
    var p := Parse(input).value;
    if p != ROOT {
      var rest := AfterPrefix(input).value.value;
      var body := StripTrailing(rest);
      var cs := Split(body);
      JoinOfSplit(body);
      SpellsAfter(input, rest);
      ComponentAccepted(cs[0]);
      FirstRefusedMeaning(cs[1..]);
      assert forall c :: c in cs ==> c == cs[0] || c in cs[1..];
      SpellingMeaning(input, cs, p.root.value);
    }
  }

  /** The texts that stand for the volume root: nothing after the prefix but one or two separators. */
  predicate NamesVolume(input: string) {
    || (Prefixed(input) && input[3..] in {"", "/", "//"})
    || input in {"/", "//"}
  }

  /** Acceptance, stated without the parser. */
  ghost predicate Accepted(input: string) {
    && ByteLen(input) <= 4096
    && (|| NamesVolume(input)
        || exists cs: seq<string>, root: Root :: ValidParts(cs, root) && Spells(input, JoinSlash(cs)))
  }

  lemma VolumeParses(input: string)
    requires NamesVolume(input) && ByteLen(input) <= MAX_PATH_LEN
    ensures Parse(input) == Success(ROOT)
  {
    hide ByteLen;
    if StripPrefix(input).Some? && input[3..] in {"", "/", "//"} {
      assert input == input[..3] + input[3..];
      forall c | c in input[..3]
        ensures c != '\\'
      {
        var i :| 0 <= i < 3 && input[..3][i] == c;
        assert Lower(input[..3][i]) == Lower(PREFIX[i]);
      }
      assert AfterPrefix(input) in {Success(None), Success(Some("")), Success(Some("/"))};
    } else {
      SlashIsNoPrefix(input);
      assert AfterPrefix(input) == Success(Some(input[1..]));
    }
  }

  lemma EmptyBodyNamesVolume(input: string)
    requires AfterPrefix(input).Success?
    requires AfterPrefix(input).value.Some? ==> StripTrailing(AfterPrefix(input).value.value) == []
    ensures NamesVolume(input)
  {
    hide SameName;
    var text := if StripPrefix(input).Some? then input[3..] else input;
    if AfterPrefix(input).value.Some? {
      var rest := AfterPrefix(input).value.value;
      assert |text| == 1 + |rest| && text[0] == '/' && text[1..] == rest;
      if rest == [] {
        assert text == "/";
      } else {
        assert |rest| == 1 && rest[0] == '/';
        assert text == "//";
      }
    } else {
      assert input[3..] == "";
    }
  }

  /** `parse` accepts exactly the spellings of the volume root and of valid components under a root. */
  lemma ParseAccepts(input: string)
    ensures Parse(input).Success? <==> Accepted(input)
  {
    hide ByteLen, ValidateComponent, FirstRefused, Split, JoinSlash, ParseRoot, AfterPrefix, StripTrailing, Spells;
    hide NamesVolume, Components;
    if Parse(input).Success? {
      ParsedIsWellFormed(input);
      var p := Parse(input).value;
      if p == ROOT {
        EmptyBodyNamesVolume(input);
      } else {
        assert ValidParts(Components(p), p.root.value) && Spells(input, JoinSlash(Components(p)));
      }
    }
    if Accepted(input) {
      if NamesVolume(input) {
        VolumeParses(input);
      } else {
        var cs: seq<string>, root: Root :| ValidParts(cs, root) && Spells(input, JoinSlash(cs));
        SpellingParses(input, cs, root);
      }
    }
  }

  // ----- printing

  /** Why a text is refused before its components are looked at. */
  lemma ParseRefuses(input: string)
    ensures Parse(input) == Failure(TooLong) <==> ByteLen(input) > MAX_PATH_LEN
    ensures ByteLen(input) <= MAX_PATH_LEN && '\\' in input ==> Parse(input) == Failure(BackslashSeparator)
    ensures ByteLen(input) <= MAX_PATH_LEN && '\\' !in input ==>
              (Parse(input) == Failure(MissingRoot) <==>
                !(Prefixed(input) && (|input| == 3 || input[3] == '/')) && !(|input| > 0 && input[0] == '/'))
  {
    hide ByteLen, SameName, FirstRefused, ValidateComponent, Split, ParseRoot;
    if |input| > 0 && input[0] == '/' { SlashIsNoPrefix(input); }
    assert |input| > 3 ==> input[3..][0] == input[3];
    match AfterPrefix(input)
    case Success(Some(rest)) =>
      var parts := Split(StripTrailing(rest));
      PartsNotAtFault(parts);
      PartsNotAtFault(parts[1..]);
    case _ =>
  }

  /** No component is refused for its place or for the length of the whole. */
  lemma {:induction false} PartsNotAtFault(cs: seq<string>)
    ensures FirstRefused(cs) != Some(MissingRoot) && FirstRefused(cs) != Some(TooLong)
    ensures forall c :: c in cs ==>
              ValidateComponent(c) != Failure(MissingRoot) && ValidateComponent(c) != Failure(TooLong)
  {
    hide ByteLen, FirstFault;
    if cs != [] {
      FaultIsOfCharacter(cs[0]);
      PartsNotAtFault(cs[1..]);
      assert cs == [cs[0]] + cs[1..];
    }
  }

  /** Valid names under no known root are refused for the root, and for that alone. */
  lemma UnknownRootRefused(input: string, cs: seq<string>)
    requires |cs| > 0 && AllValid(cs) && Spells(input, JoinSlash(cs)) && ByteLen(input) <= MAX_PATH_LEN
    requires forall r: Root :: !SameName(cs[0], Name(r))
    ensures Parse(input) == Failure(if IsAscii(cs[0]) then UnknownRoot else NonAsciiRoot)
  {
    hide ValidComponent, ByteLen, Split, JoinSlash, ValidateComponent, FirstRefused, AfterPrefix, StripTrailing, Spells;
    hide SameName, ParseRoot;
    SpellingHasNoBackslash(input, cs);
    AfterSpelling(input, cs);
    ValidHasNoSlash(cs);
    SplitOfJoin(cs);
    BodyEnds(cs);
    ComponentAccepted(cs[0]);
    if ParseRoot(cs[0]).Some? { ParseRootMeaning(cs[0], ParseRoot(cs[0]).value); }
  }

  lemma PrefixText()
    ensures StripPrefix(PREFIX) == Some([]) && ByteLen(PREFIX) == 3 && '\\' !in PREFIX
    ensures Parse(PREFIX) == Success(ROOT)
  {
    assert PREFIX[1..] == "KO" && PREFIX[1..][1..] == "O";
    assert ByteLen("O") == 1 && ByteLen("KO") == 2;
    assert PREFIX[3..] == "";
    VolumeParses(PREFIX);
  }

  lemma CanonicalSpells(body: string)
    ensures Spells(PREFIX + "/" + body, body)
  {
    var raw := PREFIX + "/" + body;
    assert raw[..3] == PREFIX && raw[3..] == "/" + body;
  }

  /**
   Parsing what was printed: it succeeds exactly when the canonical form fits the length limit (the
   short spelling grows by three bytes), and then it has the same components and root and prints the
   same again.
   */
  lemma PrintThenParse(p: Path)
    requires WellFormed(p)
    ensures ByteLen(Display(p)) <= MAX_PATH_LEN ==> Parse(Display(p)) == Success(ToOwned(p))
    ensures ByteLen(Display(p)) > MAX_PATH_LEN ==> Parse(Display(p)) == Failure(TooLong)
    ensures WellFormed(ToOwned(p)) && Components(ToOwned(p)) == Components(p) && Tail(ToOwned(p)) == Tail(p)
    ensures Display(ToOwned(p)) == Display(p)
  {
    hide ValidComponent, Spells, ParseRoot, JoinSlash, Split, ValidateComponent, FirstRefused, CanonicalBody, ByteLen;
    if p == ROOT {
      RootBody();
      PrefixText();
    } else {
      var cs, root := Components(p), p.root.value;
      SpellingMeaning(p.raw, cs, root);
      CanonicalSpells(JoinSlash(cs));
      SpellingMeaning(Display(p), cs, root);
      if ByteLen(Display(p)) <= MAX_PATH_LEN { SpellingParses(Display(p), cs, root); }
    }
  }

  /** The printed form is at most three bytes longer than what was parsed. */
  lemma PrintGrowsByThree(input: string)
    requires Parse(input).Success?
    ensures ByteLen(Display(Parse(input).value)) <= ByteLen(input) + 3
  {
    hide ValidComponent, ParseRoot, JoinSlash, Split, ValidateComponent, FirstRefused, Parse, Components, SameName;
    ParsedIsWellFormed(input);
    PrefixText();
    var p := Parse(input).value;
    if p == ROOT {
      RootBody();
    } else {
      var body := JoinSlash(Components(p));
      SpellingMeaning(p.raw, Components(p), p.root.value);
      ByteLenAppend(PREFIX, "/" + body);
      assert PREFIX + "/" + body == PREFIX + ("/" + body);
      ByteLenAppend("/" + body, "/");
      if StripPrefix(input).Some? && (input[3..] == "/" + body || input[3..] == "/" + body + "/") {
        ByteLenAppend(input[..3], input[3..]);
        assert input == input[..3] + input[3..];
      }
    }
  }

  // ----- walking up

  /** The raw text cut at a separator of the body spells what comes before it. */
  lemma CutSpells(raw: string, body: string, rest: string)
    requires Spells(raw, body + "/" + rest) && body != [] && body[0] != '/'
    ensures RawOffset(raw, 3 + 1 + |body|) <= |raw|
    ensures Spells(raw[..RawOffset(raw, 3 + 1 + |body|)], body)
  {
    hide SameName;
    var whole := body + "/" + rest;
    if StripPrefix(raw).Some? && (raw[3..] == "/" + whole || raw[3..] == "/" + whole + "/") {
      var cut := raw[..4 + |body|];
      assert cut[..3] == raw[..3];
      assert cut[3..] == raw[3..][..1 + |body|] == "/" + body;
    } else {
      SlashIsNoPrefix(raw);
      assert raw[..1 + |body|] == "/" + body;
    }
  }

  /** The parent of a path has all its components but the last; only the volume root has none. */
  lemma ParentMeaning(p: Path)
    requires WellFormed(p)
    ensures Parent(p).None? <==> p == ROOT
    ensures p == ROOT <==> Depth(p) == 0
    ensures p != ROOT ==>
              && WellFormed(Parent(p).value)
              && Components(Parent(p).value) == Components(p)[..Depth(p) - 1]
  {
    hide ValidComponent, Spells, ParseRoot, JoinSlash, Split, DropEmpty, CanonicalBody, AllValid, RawOffset;
    RootBody();
    if p != ROOT {
      var cs, root := Components(p), p.root.value;
      var n := |cs| - 1;
      BodyOfSpelling(p.raw, cs);
      BodyEnds(cs);
      ValidHasNoSlash(cs);
      if n == 0 {
        assert JoinSlash(cs) == cs[0] by { SingleJoin(cs); }
        NoLastSlash(cs[0]);
      } else {
        ParentOfDeep(p);
      }
    }
  }

  lemma SingleJoin(cs: seq<string>)
    requires |cs| == 1
    ensures JoinSlash(cs) == cs[0]
  {
  }

  lemma PrefixValid(cs: seq<string>, root: Root, n: nat)
    requires ValidParts(cs, root) && 0 < n <= |cs|
    ensures ValidParts(cs[..n], root)
  {
    hide ValidComponent, ParseRoot;
    assert forall c :: c in cs[..n] ==> c in cs;
  }

  lemma ParentOfDeep(p: Path)
    requires WellFormed(p) && p != ROOT && Depth(p) > 1
    ensures
      var q := Parent(p);
      && q.Some? && WellFormed(q.value) && q.value.root == p.root
      && Components(q.value) == Components(p)[..Depth(p) - 1]
  {
    hide ValidComponent, Spells, ParseRoot, JoinSlash, Split, DropEmpty, CanonicalBody, RawOffset;
    var cs, root := Components(p), p.root.value;
    var n := |cs| - 1;
    var body := JoinSlash(cs[..n]);
    BodyOfSpelling(p.raw, cs);
    JoinLast(cs);
    assert cs[n] in cs;
    ValidIsText(cs[n]);
    LastSlashAfter(body, cs[n]);
    PrefixValid(cs, root, n);
    BodyEnds(cs[..n]);
    CutSpells(p.raw, body, cs[n]);
    SpellingMeaning(Parent(p).value.raw, cs[..n], root);
  }

  /** `k` steps up, stopping at the volume root. */
  function Ancestor(p: Path, k: nat): (q: Path)
    requires WellFormed(p)
    ensures WellFormed(q)
    decreases k
  {
    if k == 0 then p
    else
      ParentMeaning(p);
      match Parent(p) case Some(q) => Ancestor(q, k - 1) case None => p
  }

  /** After `k` steps the first components remain. */
  lemma {:induction false} AncestorMeaning(p: Path, k: nat)
    requires WellFormed(p) && k <= Depth(p)
    ensures Components(Ancestor(p, k)) == Components(p)[..Depth(p) - k]
    decreases k
  {
    hide Components, Parent, WellFormed;
    ParentMeaning(p);
    if k > 0 {
      var q := Parent(p).value;
      AncestorMeaning(q, k - 1);
      assert Components(p)[..Depth(p) - 1][..Depth(p) - k] == Components(p)[..Depth(p) - k];
    }
  }

  /** The chain of parents reaches the volume root in exactly as many steps as the path is deep. */
  lemma ChainLength(p: Path, k: nat)
    requires WellFormed(p) && k <= Depth(p)
    ensures Ancestor(p, k) == ROOT <==> k == Depth(p)
  {
    hide Components, Parent, WellFormed;
    AncestorMeaning(p, k);
    ParentMeaning(Ancestor(p, k));
  }

  // ----- joining

  /** An owned path: well formed and in the canonical spelling. */
  predicate Owned(p: Path) { WellFormed(p) && p.raw == Display(p) }

  /** Joining succeeds exactly for a valid name that fits and, at the top, names a root. */
  lemma JoinAccepts(p: Path, c: string)
    ensures JoinPath(p, c).Success? <==>
            && ValidComponent(c) && ByteLen(p.raw) + 1 + ByteLen(c) <= MAX_PATH_LEN
            && (p.root.None? ==> ParseRoot(c).Some?)
  {
    hide ParseRoot, ValidComponent;
    ComponentAccepted(c);
  }

  /** Why a name is not joined: its own fault, then the length, then the root. */
  lemma JoinRefuses(p: Path, c: string)
    ensures !ValidComponent(c) ==> JoinPath(p, c).Failure? && ValidateComponent(c) == Failure(JoinPath(p, c).error)
    ensures ValidComponent(c) ==>
              && (JoinPath(p, c) == Failure(TooLong) <==> ByteLen(p.raw) + 1 + ByteLen(c) > MAX_PATH_LEN)
              && (JoinPath(p, c).Failure? ==> JoinPath(p, c).error in {TooLong, UnknownRoot})
  {
    hide ValidComponent, ValidateComponent, ParseRoot, ByteLen;
    ComponentAccepted(c);
  }

  lemma JoinAppends(cs: seq<string>, c: string)
    requires |cs| > 0
    ensures JoinSlash(cs + [c]) == JoinSlash(cs) + "/" + c
  {
    JoinLast(cs + [c]);
    assert (cs + [c])[..|cs|] == cs;
  }

  /** Joining adds one component; the result reparses to itself, and its parent is where it started. */
  lemma JoinMeaning(p: Path, c: string)
    requires Owned(p) && JoinPath(p, c).Success?
    ensures
      var q := JoinPath(p, c).value;
      && Owned(q) && Components(q) == Components(p) + [c]
      && Parse(q.raw) == Success(q)
      && Parent(q).Some? && Components(Parent(q).value) == Components(p)
  {
    hide ParseRoot, ValidComponent, Parse, Components, Parent, CanonicalBody, ByteLen, Spells, JoinSlash;
    hide ValidateComponent;
    var q := JoinPath(p, c).value;
    var root := q.root.value;
    ComponentAccepted(c);
    RootBody();
    var cs := Components(p) + [c];
    assert ValidParts(cs, root) by { JoinedParts(p, c, root); }
    assert q.raw == PREFIX + "/" + JoinSlash(cs) by {
      if p == ROOT {
        assert cs == [c];
        SingleJoin(cs);
      } else {
        SpellingMeaning(p.raw, Components(p), p.root.value);
        JoinAppends(Components(p), c);
        assert (PREFIX + "/" + JoinSlash(Components(p))) + "/" + c ==
            PREFIX + "/" + (JoinSlash(Components(p)) + "/" + c);
      }
    }
    CanonicalSpells(JoinSlash(cs));
    SpellingMeaning(q.raw, cs, root);
    LengthOfJoin(p.raw, c);
    SpellingParses(q.raw, cs, root);
    ParentMeaning(q);
    assert cs[..|cs| - 1] == Components(p);
  }

  lemma JoinedParts(p: Path, c: string, root: Root)
    requires WellFormed(p) && ValidComponent(c)
    requires if p.root.Some? then p.root == Some(root) else ParseRoot(c) == Some(root)
    ensures ValidParts(Components(p) + [c], root)
  {
    hide ParseRoot, ValidComponent, Components;
    RootBody();
  }

  lemma LengthOfJoin(raw: string, c: string)
    ensures ByteLen(raw + "/" + c) == ByteLen(raw) + 1 + ByteLen(c)
  {
    ByteLenAppend(raw + "/", c);
    ByteLenAppend(raw, "/");
    assert "/"[1..] == [];
    assert ByteLen("/") == 1 by { assert ByteLen([]) == 0; }
  }

  // ----- a path too long to print

  function Letters(n: nat): (s: string)
    ensures |s| == n && forall i :: 0 <= i < n ==> s[i] == 'a'
  {
    if n == 0 then [] else ['a'] + Letters(n - 1)
  }

  lemma {:induction false} LettersLength(n: nat)
    ensures ByteLen(Letters(n)) == n
  {
    if n > 0 {
      LettersLength(n - 1);
      assert Letters(n)[1..] == Letters(n - 1);
    }
  }

  lemma LettersAreValid(n: nat)
    requires 0 < n <= MAX_COMPONENT_LEN
    ensures ValidComponent(Letters(n))
  {
    LettersLength(n);
  }

  /** A short name under Temp and then `k` names of 254 letters. */
  function Deep(k: nat): (cs: seq<string>)
    ensures |cs| > 0
  {
    if k == 0 then ["Temp", Letters(10)] else Deep(k - 1) + [Letters(254)]
  }

  lemma TempIsValid()
    ensures ByteLen("Temp") == 4 && ValidComponent("Temp")
  {
    ByteLenAppend("Te", "mp");
    assert "Te" + "mp" == "Temp";
  }

  lemma TempIsRoot()
    ensures ParseRoot("Temp") == Some(Temp)
  {
    hide ParseRoot;
    ParseRootMeaning("Temp", Temp);
  }

  /** A path in scratch space. */
  lemma ScratchParts()
    ensures AllValid(["Temp", "x"]) && ParseRoot("Temp") == Some(Temp)
    ensures Spells("LKO/Temp/x", JoinSlash(["Temp", "x"])) && ByteLen("LKO/Temp/x") <= MAX_PATH_LEN
    ensures Parse("LKO/Temp/x") == Success(Path("LKO/Temp/x", Some(Temp)))
  {
    hide ByteLen, ParseRoot, Parse, FirstFault;
    TempIsValid();
    TempIsRoot();
    NameIsValid();
    var cs := ["Temp", "x"];
    LengthOfJoin("Temp", "x");
    assert "Temp" + "/" + "x" == "Temp/x" && PREFIX + "/Temp/x" == "LKO/Temp/x" && "/" + "Temp/x" == "/Temp/x";
    assert JoinSlash(cs[1..]) == "x";
    assert JoinSlash(cs) == "Temp/x";
    PrefixText();
    ByteLenAppend(PREFIX, "/Temp/x");
    ByteLenAppend("/", "Temp/x");
    NameIsShort();
    CanonicalSpells("Temp/x");
    SpellingParses("LKO/Temp/x", cs, Temp);
  }

  lemma NameIsValid()
    ensures ValidComponent("x")
  {
    NameIsShort();
  }

  lemma NameIsShort()
    ensures ByteLen("x") == 1 && ByteLen("/") == 1
  {
    assert "x"[1..] == [] && "/"[1..] == [];
  }

  lemma ShallowParts()
    ensures ValidParts(Deep(0), Temp) && ByteLen(JoinSlash(Deep(0))) == 15
  {
    hide ValidComponent, ByteLen, ParseRoot, Letters;
    LettersAreValid(10);
    LettersLength(10);
    TempIsValid();
    TempIsRoot();
    LengthOfJoin("Temp", Letters(10));
    assert JoinSlash(["Temp", Letters(10)][1..]) == Letters(10);
  }

  lemma {:induction false} DeepParts(k: nat)
    ensures ValidParts(Deep(k), Temp) && ByteLen(JoinSlash(Deep(k))) == 15 + 255 * k
  {
    hide ValidComponent, JoinSlash, ByteLen, Letters, ParseRoot;
    if k == 0 {
      ShallowParts();
    } else {
      DeepParts(k - 1);
      LettersAreValid(254);
      LettersLength(254);
      JoinAppends(Deep(k - 1), Letters(254));
      LengthOfJoin(JoinSlash(Deep(k - 1)), Letters(254));
    }
  }

  /** The lengths of the two spellings of a body. */
  lemma BothLengths(body: string)
    ensures ByteLen("/" + body) == 1 + ByteLen(body) && ByteLen(PREFIX + "/" + body) == 4 + ByteLen(body)
  {
    hide Parse;
    NameIsShort();
    PrefixText();
    ByteLenAppend("/", body);
    ByteLenAppend(PREFIX, "/" + body);
    assert PREFIX + "/" + body == PREFIX + ("/" + body);
  }

  /** A path of exactly the permitted length that parses, but whose printed form does not. */
  lemma TooLongToPrint()
    ensures
      var input := "/" + JoinSlash(Deep(16));
      && ByteLen(input) == MAX_PATH_LEN
      && Parse(input) == Success(Path(input, Some(Temp)))
      && Parse(Display(Path(input, Some(Temp)))) == Failure(TooLong)
  {
    hide JoinSlash, Deep, ValidParts, Parse, Display, WellFormed, Components, Tail, CanonicalBody, ByteLen;
    DeepParts(16);
    var input := "/" + JoinSlash(Deep(16));
    BothLengths(JoinSlash(Deep(16)));
    SpellingParses(input, Deep(16), Temp);
    SpellingMeaning(input, Deep(16), Temp);
    PrintThenParse(Path(input, Some(Temp)));
  }

  // ----- containment

  /** `theirs` is a leading part of `mine`, name by name, without regard to ASCII case. */
  ghost predicate Leads(mine: seq<string>, theirs: seq<string>) {
    |theirs| <= |mine| && forall i :: 0 <= i < |theirs| ==> SameName(mine[i], theirs[i])
  }

  predicate WithinParts(mine: seq<string>, theirs: seq<string>) {
    theirs == [] || (mine != [] && SameName(mine[0], theirs[0]) && WithinParts(mine[1..], theirs[1..]))
  }

  predicate IsWithin(p: Path, other: Path) { WithinParts(Components(p), Components(other)) }

  lemma {:induction false} WithinIsLeads(mine: seq<string>, theirs: seq<string>)
    ensures WithinParts(mine, theirs) <==> Leads(mine, theirs)
  {
    hide SameName;
    if theirs != [] && mine != [] {
      WithinIsLeads(mine[1..], theirs[1..]);
      if Leads(mine, theirs) {
        forall i | 0 <= i < |theirs[1..]|
          ensures SameName(mine[1..][i], theirs[1..][i])
        {
          assert SameName(mine[i + 1], theirs[i + 1]);
        }
      }
      if SameName(mine[0], theirs[0]) && Leads(mine[1..], theirs[1..]) {
        forall i | 0 <= i < |theirs|
          ensures SameName(mine[i], theirs[i])
        {
          if i > 0 { assert SameName(mine[1..][i - 1], theirs[1..][i - 1]); }
        }
      }
    }
  }

  /** The loop of `is_within`: one name of each at a time until the other's run out. */
  method CheckWithin(p: Path, other: Path) returns (r: bool)
    ensures r == IsWithin(p, other)
  {
    hide SameName, Components;
    var mine, theirs := Components(p), Components(other);
    var i := 0;
    WithinIsLeads(mine, theirs);
    while i < |theirs|
      invariant 0 <= i <= |theirs| && i <= |mine|
      invariant forall k :: 0 <= k < i ==> SameName(mine[k], theirs[k])
    {
      if i >= |mine| || !SameName(mine[i], theirs[i]) {
        return false;
      }
      i := i + 1;
    }
    r := true;
  }

  /** Two paths with the same components up to ASCII case. */
  ghost predicate SamePlace(p: Path, q: Path) {
    |Components(p)| == |Components(q)| && Leads(Components(p), Components(q))
  }

  /** The names with ASCII capitals made small. */
  function Folded(cs: seq<string>): (r: seq<string>)
    ensures |r| == |cs| && forall i :: 0 <= i < |cs| ==> r[i] == Fold(cs[i])
  {
    seq(|cs|, i requires 0 <= i < |cs| => Fold(cs[i]))
  }

  lemma SamePlaceIsFolded(p: Path, q: Path)
    ensures SamePlace(p, q) <==> Folded(Components(p)) == Folded(Components(q))
  {
    hide Components, SameName, Fold;
    var a, b := Components(p), Components(q);
    forall i | 0 <= i < |a| && i < |b|
      ensures SameName(a[i], b[i]) <==> Folded(a)[i] == Folded(b)[i]
    {
      SameNameIsFold(a[i], b[i]);
    }
  }

  /** Containment is ancestry: some number of steps up reaches the other path, up to case. */
  lemma WithinIsAncestry(p: Path, other: Path)
    requires WellFormed(p) && WellFormed(other)
    ensures IsWithin(p, other) <==> exists k: nat :: k <= Depth(p) && SamePlace(Ancestor(p, k), other)
  {
    hide SameName, Components, WellFormed, Ancestor;
    var mine, theirs := Components(p), Components(other);
    WithinIsLeads(mine, theirs);
    if Leads(mine, theirs) {
      var k := |mine| - |theirs|;
      AncestorMeaning(p, k);
      assert SamePlace(Ancestor(p, k), other);
    }
    if k: nat :| k <= Depth(p) && SamePlace(Ancestor(p, k), other) {
      AncestorMeaning(p, k);
      forall i | 0 <= i < |theirs|
        ensures SameName(mine[i], theirs[i])
      {
        assert mine[..|mine| - k][i] == mine[i];
      }
    }
  }

  /** Every path is within itself and within the volume root, and containment chains. */
  lemma WithinIsPreorder(p: Path, q: Path, r: Path)
    ensures IsWithin(p, p)
    ensures IsWithin(p, ROOT)
    ensures IsWithin(p, q) && IsWithin(q, r) ==> IsWithin(p, r)
    ensures IsWithin(p, q) && IsWithin(q, p) ==> SamePlace(p, q)
  {
    hide Components;
    RootBody();
    WithinIsLeads(Components(p), Components(p));
    WithinIsLeads(Components(p), Components(q));
    WithinIsLeads(Components(q), Components(p));
    WithinIsLeads(Components(q), Components(r));
    WithinIsLeads(Components(p), Components(r));
  }
}
