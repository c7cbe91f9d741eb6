/**
 The shapes of the authority's fields and paths, as its rules mean them: patterns and what they
 are for, where the scripts test and normalize. Each is proved to be the shape that is tested.
 */
module AuthorityShapes {
  import opened Basics
  import opened Texts
  import opened Patterns
  import opened AuthorityPolicy
  import opened AuthorityRotation

  // ---------- Identifiers and tuples ----------

  ghost predicate RotationId(s: string) { Matches(ROTATION_ID, s) }

  ghost predicate Revision(s: string) { Matches(OBJECT_NAME, s) }

  lemma RotationIdExactly(s: string)
    ensures IsRotationId(s) <==> RotationId(s)
  {
    assert ROTATION_ID == [Between(ALPHANUMERIC, 1, 1)] + [Between(ID_REST, 7, 127)];
    MatchesCharacter(ALPHANUMERIC, [Between(ID_REST, 7, 127)], s);
    if s != "" {
      MatchesOne(Between(ID_REST, 7, 127), s[1..]);
    }
    hide Matches;
    forall c ensures Lower(c) || Digit(c) <==> InRanges(ALPHANUMERIC, c) {
      assert ALPHANUMERIC[0] == ('a', 'z') && ALPHANUMERIC[1] == ('0', '9');
    }
    forall c ensures Slug(c) || c == '.' || c == '_' <==> InRanges(ID_REST, c) {
      assert ID_REST[0] == ('a', 'z') && ID_REST[1] == ('0', '9') && ID_REST[2] == ('.', '.');
      assert ID_REST[3] == ('_', '_') && ID_REST[4] == ('-', '-');
    }
    hide Slug, Lower, Digit, InRanges;
    if s != "" {
      assert forall k | 0 < k < |s| :: s[k] == s[1..][k - 1];
      AlphanumericIsSlug(s[0]);
    }
  }

  lemma AlphanumericIsSlug(c: char)
    ensures InRanges(ALPHANUMERIC, c) ==> Slug(c)
  {
  }

  /** A template and a workflow file of one name. */
  ghost predicate Named(name: string, t: SuccessorTuple) {
    && Fits(AtLeast(SLUG, 1), name)
    && t.templatePath == "config/production-closure-successors/closure-authority-" + name + ".yml"
    && t.workflowPath == ".github/workflows/closure-authority-" + name + ".yml"
  }

  /** What a successor must say: one name for both files, a digest, two different checks by known Apps, a known
      status creator, and a deadline. */
  ghost predicate LegalTuple(t: SuccessorTuple) {
    && (exists name :: Named(name, t))
    && t.workflowSha256.Sha256? && t.activationDeadline.Canonical?
    && Trim(t.externalCheckName) != "" && Trim(t.controllerCheckName) != ""
    && t.externalCheckName != t.controllerCheckName
    && 1 <= t.externalCheckAppId && 1 <= t.controllerCheckAppId && 1 <= t.controllerStatusCreatorUserId
    && t.controllerStatusCreatorLogin != "" && Trim(t.controllerStatusCreatorLogin) == t.controllerStatusCreatorLogin
  }

  ghost predicate LegalState(s: SuccessorState) {
    && s.phase == "staged" && s.activatedByRotationId.None? && RotationId(s.stagedByRotationId)
    && LegalTuple(s.tuple)
  }

  lemma FramedBySlug(s: string, prefix: string, suffix: string)
    ensures SlugPath(s, prefix, suffix) <==> exists name :: Fits(AtLeast(SLUG, 1), name) && s == prefix + name + suffix
  {
    SlugExactly();
    hide Slug, InRanges;
    if SlugPath(s, prefix, suffix) {
      var name := s[|prefix|..|s| - |suffix|];
      assert s == prefix + name + suffix;
      assert forall k | 0 <= k < |name| :: name[k] == s[|prefix| + k];
    }
    if name :| Fits(AtLeast(SLUG, 1), name) && s == prefix + name + suffix {
      assert s[|s| - |suffix|..] == suffix;
      assert forall k | |prefix| <= k < |s| - |suffix| :: s[k] == name[k - |prefix|];
    }
  }

  /** The last part of a path in a directory. */
  lemma NameInDirectory(directory: string, name: string)
    requires '/' !in name
    ensures BaseName(directory + ['/'] + name) == name
  {
    SplitConcat(directory, name, '/');
    SplitParts(name, '/');
  }

  lemma SlugHasNoSlash(name: string, start: string, end: string)
    requires Fits(AtLeast(SLUG, 1), name) && '/' !in start && '/' !in end
    ensures '/' !in start + name + end
  {
    SlugExactly();
    hide InRanges;
    assert forall k | 0 <= k < |name| :: Slug(name[k]);
  }

  const START := "closure-authority-"
  const END := ".yml"

  lemma NamePartsHaveNoSlash()
    ensures '/' !in START && '/' !in END
  {
    assert forall k | 0 <= k < |START| :: START[k] != '/';
    assert forall k | 0 <= k < |END| :: END[k] != '/';
  }

  lemma PathsInDirectories()
    ensures TEMPLATE_PREFIX == "config/production-closure-successors" + ['/'] + START
    ensures WORKFLOW_PREFIX == ".github/workflows" + ['/'] + START
  {
  }

  lemma TemplateName(name: string)
    requires Fits(AtLeast(SLUG, 1), name)
    ensures BaseName(TEMPLATE_PREFIX + name + END) == START + name + END
    ensures BaseName(WORKFLOW_PREFIX + name + END) == START + name + END
  {
    PathsInDirectories();
    NamePartsHaveNoSlash();
    hide BaseName, TEMPLATE_PREFIX, WORKFLOW_PREFIX, START, END, Fits;
    SlugHasNoSlash(name, START, END);
    var file := START + name + END;
    NameInDirectory("config/production-closure-successors", file);
    NameInDirectory(".github/workflows", file);
    assert TEMPLATE_PREFIX + name + END == "config/production-closure-successors" + ['/'] + file;
    assert WORKFLOW_PREFIX + name + END == ".github/workflows" + ['/'] + file;
  }

  lemma SameMiddle(start: string, a: string, b: string, end: string)
    requires start + a + end == start + b + end
    ensures a == b
  {
    var s := start + a + end;
    assert |a| == |b|;
    assert a == s[|start|..|start| + |a|] && b == s[|start|..|start| + |b|];
  }

  /** Two paths of the right shape with one base name are named alike. */
  lemma NamesExactly(t: SuccessorTuple)
    ensures (exists name :: Named(name, t)) <==>
      && IsTemplatePath(t.templatePath) && IsAuthorityWorkflowPath(t.workflowPath)
      && BaseName(t.templatePath) == BaseName(t.workflowPath)
  {
    FramedBySlug(t.templatePath, TEMPLATE_PREFIX, END);
    FramedBySlug(t.workflowPath, WORKFLOW_PREFIX, END);
    hide BaseName, SlugPath, Fits, TEMPLATE_PREFIX, WORKFLOW_PREFIX, START;
    assert END == ".yml";
    Prefixes();
    if IsTemplatePath(t.templatePath) && IsAuthorityWorkflowPath(t.workflowPath) {
      var a :| Fits(AtLeast(SLUG, 1), a) && t.templatePath == TEMPLATE_PREFIX + a + END;
      var b :| Fits(AtLeast(SLUG, 1), b) && t.workflowPath == WORKFLOW_PREFIX + b + END;
      TemplateName(a);
      TemplateName(b);
      if BaseName(t.templatePath) == BaseName(t.workflowPath) {
        SameMiddle(START, a, b, END);
        assert Named(a, t);
      }
    }
    if name :| Named(name, t) {
      TemplateName(name);
    }
  }

  lemma Prefixes()
    ensures TEMPLATE_PREFIX == "config/production-closure-successors/closure-authority-"
    ensures WORKFLOW_PREFIX == ".github/workflows/closure-authority-"
  {
  }

  lemma TupleExactly(t: SuccessorTuple)
    ensures ValidTuple(t) <==> LegalTuple(t)
  {
    NamesExactly(t);
    NonBlankExactly(t.externalCheckName);
    NonBlankExactly(t.controllerCheckName);
    TrimmedExactly(t.controllerStatusCreatorLogin);
    hide IsTemplatePath, IsAuthorityWorkflowPath, BaseName, NonBlank, Trimmed, Named, Trim;
  }

  /** Neither of the two files is the manifest or something else of the policy. */
  lemma LegalPaths(t: SuccessorTuple)
    requires LegalTuple(t)
    ensures IsTemplatePath(t.templatePath) && IsAuthorityWorkflowPath(t.workflowPath)
    ensures t.templatePath != MANIFEST_PATH && t.workflowPath != MANIFEST_PATH
  {
    NamesExactly(t);
    FirstLetters();
    hide BaseName, EndsWith, Slug, TEMPLATE_PREFIX, WORKFLOW_PREFIX, MANIFEST_PATH;
    assert t.templatePath[0] == TEMPLATE_PREFIX[0] && t.workflowPath[0] == WORKFLOW_PREFIX[0];
  }

  lemma FirstLetters()
    ensures |TEMPLATE_PREFIX| > 0 && |WORKFLOW_PREFIX| > 0 && |MANIFEST_PATH| > 0
    ensures TEMPLATE_PREFIX[0] != MANIFEST_PATH[0] && WORKFLOW_PREFIX[0] != MANIFEST_PATH[0]
  {
    PathsInDirectories();
    assert "config/production-closure-successors"[0] == 'c';
    assert WORKFLOW_PREFIX[0] == '.';
    assert MANIFEST_PATH[0] == 'p';
  }

  lemma StateExactly(s: SuccessorState)
    ensures ValidState(s) <==> LegalState(s)
  {
    TupleExactly(s.tuple);
    RotationIdExactly(s.stagedByRotationId);
    hide ValidTuple, LegalTuple, IsRotationId, RotationId;
  }

  // ---------- Paths ----------

  /** The namespace that a rotation may add files to. */
  ghost predicate InNamespace(path: Path) {
    || Matches([Fixed("scripts/production-closure-"), AtLeast(SLUG, 1), Fixed(".ts")], path)
    || Matches([Fixed("scripts/production-closure-"), AtLeast(SLUG, 1), Fixed(".test.ts")], path)
    || Matches([Fixed("scripts/fixtures/production-closure-"), AtLeast(SLUG, 1), Fixed(".json")], path)
    || Matches([Fixed("config/production-closure-successors/closure-authority-"), AtLeast(SLUG, 1), Fixed(".yml")],
         path)
    || Matches([Fixed(".github/workflows/closure-authority-"), AtLeast(SLUG, 1), Fixed(".yml")], path)
  }

  lemma NamespaceExactly(path: Path)
    ensures AdditionAllowed(path) <==> InNamespace(path)
  {
    SlugPathExactly(path, "scripts/production-closure-", ".ts");
    SlugPathExactly(path, "scripts/production-closure-", ".test.ts");
    SlugPathExactly(path, "scripts/fixtures/production-closure-", ".json");
    SlugPathExactly(path, TEMPLATE_PREFIX, ".yml");
    SlugPathExactly(path, WORKFLOW_PREFIX, ".yml");
    hide SlugPath, Matches;
  }

  /** A rotation may change what is pinned or auxiliary, the policy, the matrix, and the namespace. */
  ghost predicate MayRotate(base: Policy, path: Path) {
    || path in base.protectedFiles || path in base.identity.auxiliaryFiles
    || path == "config/production-closure-authority.json" || path == "docs/PRODUCTION_CLOSURE_MATRIX.json"
    || InNamespace(path)
  }

  lemma ScopeExactly(base: Policy, path: Path)
    ensures InScope(base, path) <==> MayRotate(base, path)
  {
    NamespaceExactly(path);
    hide AdditionAllowed, InNamespace;
  }

  const ENDING: seq<Piece> :=
    [Fixed("."), Between([('c', 'c'), ('m', 'm')], 0, 1), Between([('j', 'j'), ('t', 't')], 1, 1), Fixed("s")]

  /** `\.[cm]?[jt]s$` */
  ghost predicate IsCode(path: Path) { exists n | 0 <= n <= |path| :: Matches(ENDING, path[n..]) }

  predicate JsOrTs(s: string) { s == "js" || s == "ts" }

  lemma JsOrTsExactly(s: string)
    ensures Matches([Between([('j', 'j'), ('t', 't')], 1, 1)] + [Fixed("s")], s) <==> JsOrTs(s)
  {
    var ranges := [('j', 'j'), ('t', 't')];
    MatchesCharacter(ranges, [Fixed("s")], s);
    if s != "" {
      MatchesOne(Fixed("s"), s[1..]);
      assert InRanges(ranges, s[0]) <==> s[0] == 'j' || s[0] == 't' by {
        assert ranges[0] == ('j', 'j') && ranges[1] == ('t', 't');
      }
      assert s == [s[0]] + s[1..];
    }
  }

  lemma OptionalExactly(s: string)
    ensures
      Matches([Between([('c', 'c'), ('m', 'm')], 0, 1)] + [Between([('j', 'j'), ('t', 't')], 1, 1), Fixed("s")], s)
      <==> JsOrTs(s) || (s != "" && (s[0] == 'c' || s[0] == 'm') && JsOrTs(s[1..]))
  {
    var ranges, rest := [('c', 'c'), ('m', 'm')], [Between([('j', 'j'), ('t', 't')], 1, 1)] + [Fixed("s")];
    assert rest == [Between([('j', 'j'), ('t', 't')], 1, 1), Fixed("s")];
    hide Matches, JsOrTs;
    MatchesOptional(ranges, rest, s);
    JsOrTsExactly(s);
    if s != "" {
      JsOrTsExactly(s[1..]);
      assert InRanges(ranges, s[0]) <==> s[0] == 'c' || s[0] == 'm' by {
        assert ranges[0] == ('c', 'c') && ranges[1] == ('m', 'm');
      }
    }
  }

  predicate IsEnding(s: string) {
    s == ".js" || s == ".ts" || s == ".cjs" || s == ".cts" || s == ".mjs" || s == ".mts"
  }

  lemma EndingExactly(s: string)
    ensures Matches(ENDING, s) <==> IsEnding(s)
  {
    var rest := [Between([('c', 'c'), ('m', 'm')], 0, 1)] + [Between([('j', 'j'), ('t', 't')], 1, 1), Fixed("s")];
    assert ENDING == [Fixed(".")] + rest;
    MatchesFixed(".", rest, s);
    hide Matches;
    EndingParts(s);
    if "." <= s {
      OptionalExactly(s[1..]);
      hide IsEnding, JsOrTs;
      assert |s| > 1 ==> s[1..][1..] == s[2..];
    }
  }

  lemma EndingParts(s: string)
    ensures IsEnding(s) <==>
      "." <= s && (JsOrTs(s[1..]) || (|s| > 1 && (s[1] == 'c' || s[1] == 'm') && JsOrTs(s[2..])))
  {
  }

  lemma CodeExactly(path: Path)
    ensures CodeFile(path) <==> IsCode(path)
  {
    hide Matches;
    forall n | 0 <= n <= |path| ensures Matches(ENDING, path[n..]) <==> IsEnding(path[n..]) {
      EndingExactly(path[n..]);
    }
    if CodeFile(path) {
      var n :| 0 <= n <= |path| && IsEnding(path[n..]);
    }
  }

  // ---------- Normal paths ----------

  const LETTERS: seq<(char, char)> := [('A', 'Z'), ('a', 'z')]

  /** `^[A-Za-z]:` */
  predicate StartsWithDrive(path: Path) { |path| > 1 && InRanges(LETTERS, path[0]) && ":" <= path[1..] }

  lemma DriveExactly(path: Path)
    ensures HasDrive(path) <==> StartsWithDrive(path)
  {
    assert LETTERS[0] == ('A', 'Z') && LETTERS[1] == ('a', 'z');
  }

  /** A relative path that says no more than it needs: trimmed, with slashes only, without a drive, and without
      empty, `.` and `..` parts, but for a slash at the end, `.` and `./`. */
  predicate NormalPath(path: Path) {
    var parts := Split(path, '/');
    && path != "" && path[0] != '/' && Trimmed(path) && !StartsWithDrive(path)
    && '\\' !in path && '\0' !in path && ".." !in parts
    && (path == "." || path == "./" ||
        (forall k | 0 <= k < |parts| :: parts[k] != "." && (parts[k] == "" ==> k == |parts| - 1)))
  }

  lemma {:induction false} KeptFacts(parts: seq<string>)
    ensures forall k | 0 <= k < |KeptParts(parts)| ::
      KeptParts(parts)[k] in parts && KeptParts(parts)[k] != "" && KeptParts(parts)[k] != "."
    ensures (forall k | 0 <= k < |parts| :: parts[k] != "" && parts[k] != ".") ==> KeptParts(parts) == parts
  {
    if parts != [] {
      KeptFacts(parts[1..]);
      assert forall k | 0 < k < |parts| :: parts[1..][k - 1] == parts[k];
      assert parts == [parts[0]] + parts[1..];
    }
  }

  lemma {:induction false} KeptBeforeEmpty(front: seq<string>)
    ensures KeptParts(front + [""]) == KeptParts(front)
  {
    if front != [] {
      KeptBeforeEmpty(front[1..]);
      assert (front + [""])[1..] == front[1..] + [""];
    }
  }

  /** What is kept is no longer than what there was, and shorter by the slash at the end. */
  lemma {:induction false} KeptIsShorter(parts: seq<string>)
    requires KeptParts(parts) != []
    ensures |Joined(KeptParts(parts), '/')| + (if |parts| > 1 && parts[|parts| - 1] == "" then 1 else 0)
      <= |Joined(parts, '/')|
  {
    if |parts| > 1 {
      var rest := parts[1..];
      if KeptParts(rest) != [] {
        KeptIsShorter(rest);
        JoinedFirst(parts[0], KeptParts(rest));
        assert [] + KeptParts(rest) == KeptParts(rest);
        assert |rest| == 1 ==> rest[1..] == [] && rest[0] != "";
      } else {
        assert KeptParts(parts) == [parts[0]];
      }
    }
  }

  lemma JoinedFirst(first: string, rest: seq<string>)
    requires rest != []
    ensures Joined([first] + rest, '/') == first + ['/'] + Joined(rest, '/')
  {
    assert ([first] + rest)[1..] == rest;
  }

  /** A text ends with a slash when its last part is empty. */
  lemma LastPart(text: string)
    requires text != ""
    ensures var parts := Split(text, '/');
      EndsWith(text, "/") <==> |parts| > 1 && parts[|parts| - 1] == ""
    ensures EndsWith(text, "/") ==>
      Split(text, '/') == Split(text[..|text| - 1], '/') + [""] && text == text[..|text| - 1] + ['/']
  {
    var parts := Split(text, '/');
    var last := |parts| - 1;
    SplitJoins(text, '/');
    if EndsWith(text, "/") {
      var front := text[..|text| - 1];
      assert text == front + ['/'] + "";
      SplitConcat(front, "", '/');
      assert Split("", '/') == [""];
    }
    if last > 0 && parts[last] == "" {
      JoinConcat(parts[..last], [""], '/');
      assert parts[..last] + [""] == parts;
      assert text == Joined(parts[..last], '/') + ['/'] + "";
    }
  }

  lemma NormalIsShorter(text: string)
    requires text != "" && text[0] != '/'
    ensures |PosixNormal(text)| <= |text|
  {
    var parts := Split(text, '/');
    SplitJoins(text, '/');
    LastPart(text);
    if KeptParts(parts) != [] {
      KeptIsShorter(parts);
    }
    assert EndsWith(text, "/") ==> text[|text| - 1] == '/';
  }

  predicate NoIdleParts(path: Path) {
    var parts := Split(path, '/');
    path == "." || path == "./" ||
    forall k | 0 <= k < |parts| :: parts[k] != "." && (parts[k] == "" ==> k == |parts| - 1)
  }

  lemma NormalIsFixed(path: Path)
    requires path != "" && path[0] != '/' && PosixNormal(path) == path
    ensures NoIdleParts(path)
  {
    hide EndsWith, Joined;
    var parts := Split(path, '/');
    var kept := KeptParts(parts);
    KeptFacts(parts);
    if kept != [] {
      SplitParts(path, '/');
      JoinSplits(kept, '/');
      if EndsWith(path, "/") {
        assert path == Joined(kept, '/') + ['/'] + "";
        SplitConcat(Joined(kept, '/'), "", '/');
        assert Split("", '/') == [""];
      } else {
        assert path == Joined(kept, '/') + "";
        assert path == Joined(kept, '/');
      }
    }
  }

  lemma FixedIsNormal(path: Path)
    requires path != "" && path[0] != '/' && NoIdleParts(path)
    ensures PosixNormal(path) == path
  {
    var parts := Split(path, '/');
    if path == "." || path == "./" {
      DotIsNormal();
    } else if parts[|parts| - 1] == "" {
      SlashAtEnd(path);
    } else {
      SplitJoins(path, '/');
      LastPart(path);
      KeptFacts(parts);
      hide Joined, Split;
      assert path == Joined(parts, '/') + "";
    }
  }

  lemma SlashAtEnd(path: Path)
    requires path != "" && path[0] != '/' && path != "." && path != "./" && NoIdleParts(path)
    requires Split(path, '/')[|Split(path, '/')| - 1] == ""
    ensures PosixNormal(path) == path
  {
    var parts := Split(path, '/');
    var last := |parts| - 1;
    SplitJoins(path, '/');
    LastPart(path);
    if last == 0 {
      OnePart(path);
    }
    hide Split, Joined;
    assert parts == parts[..last] + [""];
    KeptBeforeEmpty(parts[..last]);
    KeptFacts(parts[..last]);
    JoinConcat(parts[..last], [""], '/');
    JoinedEmpty();
    assert path == Joined(parts[..last], '/') + ['/'] + "";
  }

  lemma JoinedEmpty()
    ensures Joined([""], '/') == ""
  {
  }

  lemma OnePart(path: Path)
    requires |Split(path, '/')| == 1
    ensures Split(path, '/')[0] == path
  {
    SplitJoins(path, '/');
  }

  lemma DotIsNormal()
    ensures PosixNormal(".") == "." && PosixNormal("./") == "./"
  {
    assert Split("", '/') == [""];
    SplitConcat("", "", '/');
    assert "/" == "" + ['/'] + "";
    DotParts();
    assert KeptParts([]) == [] && KeptParts([""]) == [];
    assert ["."][1..] == [] && [".", ""][1..] == [""] && [""][1..] == [];
    assert KeptParts(["."]) == [] && KeptParts([".", ""]) == [];
    assert EndsWith("./", "/") && !EndsWith(".", "/");
  }

  lemma DotParts()
    ensures Split(".", '/') == ["."] && Split("./", '/') == [".", ""]
  {
    SplitParts(".", '/');
    SplitConcat(".", "", '/');
    assert "./" == "." + ['/'] + "";
    assert Split("", '/') == [""];
  }

  /** No part of what is kept has a backslash. */
  lemma NormalLacks(text: string, c: char)
    requires c !in text && c != '/' && c != '.'
    ensures c !in PosixNormal(text)
  {
    var parts := Split(text, '/');
    KeptFacts(parts);
    forall k | 0 <= k < |parts| ensures c !in parts[k] {
      PartLacks(text, c, k);
    }
    if KeptParts(parts) != [] {
      JoinedLacks(KeptParts(parts), '/', c);
    }
  }

  lemma {:induction false} PartLacks(text: string, c: char, k: nat)
    requires c !in text && k < |Split(text, '/')|
    ensures c !in Split(text, '/')[k]
  {
    if text != "" {
      assert forall x | x in text[1..] :: x in text;
      if text[0] == '/' {
        if k > 0 {
          PartLacks(text[1..], c, k - 1);
        }
      } else {
        PartLacks(text[1..], c, k);
      }
    }
  }

  lemma SlashesKeep(value: string)
    ensures '\\' !in Slashes(value) && ('\\' !in value ==> Slashes(value) == value)
  {
  }

  /** Normalizing gives a path back exactly when it is normal. */
  lemma NormalExactly(path: Path)
    ensures NormalPath(path) <==> NormalizedPath(path) == Some(path)
  {
    hide Split, PosixNormal, Trim, Trimmed, Slashes, HasDrive, NoIdleParts;
    SlashesKeep(path);
    TrimmedExactly(path);
    TrimIsPart(Slashes(path));
    IdleExactly(path);
    var text := Trim(Slashes(path));
    if NormalPath(path) {
      FixedIsNormal(path);
    } else if NormalizedPath(path) == Some(path) {
      assert forall c | c in text :: c in Slashes(path);
      NormalLacks(text, '\\');
      NormalIsShorter(text);
      assert text == path;
      NormalIsFixed(path);
    }
  }

  lemma IdleExactly(path: Path)
    ensures NormalPath(path) <==>
      && path != "" && path[0] != '/' && Trimmed(path) && !HasDrive(path)
      && '\\' !in path && '\0' !in path && ".." !in Split(path, '/') && NoIdleParts(path)
  {
    DriveExactly(path);
    hide Split, Trimmed, HasDrive, StartsWithDrive;
  }

  lemma TrimIsPart(s: string)
    ensures |Trim(s)| <= |s| && (|Trim(s)| == |s| ==> Trim(s) == s) && forall c | c in Trim(s) :: c in s
  {
    hide TrimStart, TrimEnd, White;
    TrimStartIsSuffix(s);
    TrimEndIsPrefix(TrimStart(s));
    assert forall c | c in TrimStart(s) :: c in s;
  }
}
