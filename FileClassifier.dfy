/** Which uploaded files are treated as text, and which relative paths are
    accepted for storage (isTextFile and sanitizePath in convex/lib/skills.ts). */
module FileClassifier {
  import opened Wrappers
  import opened JsStrings

  /** The file extensions, lower-case and without the dot, read as text. */
  const TextExtensions: set<string> := {
    "md", "mdx", "txt", "json", "json5", "yaml", "yml", "toml",
    "js", "cjs", "mjs", "ts", "tsx", "jsx", "py", "sh", "rb", "go", "rs",
    "swift", "kt", "java", "cs", "cpp", "c", "h", "hpp", "sql", "csv",
    "ini", "cfg", "env", "xml", "html", "css", "scss", "sass"
  }

  /** The `application/` content types read as text, compared exactly. */
  const TextApplicationTypes: seq<string> := [
    "application/json", "application/xml", "application/yaml", "application/x-yaml",
    "application/toml", "application/javascript", "application/typescript",
    "application/markdown"
  ]

  const TextTypePrefix := "text/"

  /** `path.trim().toLowerCase()` */
  function NormalizedPath(path: string): string {
    Lower(Trim(path))
  }

  /** The last `.`-piece of a name that has a dot, and nothing otherwise. */
  function Extension(name: string): (ext: string)
    ensures '.' !in ext
  {
    var parts := Split(name, '.');
    if |parts| > 1 then parts[|parts| - 1] else []
  }

  /** A declared content type that by itself marks the file as text. */
  predicate IsTextContentType(contentType: string) {
    || (|TextTypePrefix| <= |contentType| && contentType[..|TextTypePrefix|] == TextTypePrefix)
    || contentType in TextApplicationTypes
  }

  /** isTextFile: never for a blank path, whatever the content type. */
  function IsTextFile(path: string, contentType: Option<string>): (r: bool)
    ensures NormalizedPath(path) == [] ==> !r
  {
    var trimmed := NormalizedPath(path);
    if trimmed == [] then false
    else
      var extension := Extension(trimmed);
      if contentType.Some? && contentType.value != [] && IsTextContentType(contentType.value) then true
      else extension != [] && extension in TextExtensions
  }

  /** Otherwise a file is text exactly when its content type marks it so or it
      has an extension and that is a text extension. */
  lemma IsTextFileCases(path: string, contentType: Option<string>)
    requires NormalizedPath(path) != []
    ensures IsTextFile(path, contentType)
        <==> (contentType.Some? && IsTextContentType(contentType.value))
             || (Extension(NormalizedPath(path)) != [] && Extension(NormalizedPath(path)) in TextExtensions)
  {
    if contentType.Some? && IsTextContentType(contentType.value) {
      EmptyIsNotTextContentType();
    }
  }

  /** An empty content type marks nothing as text, so isTextFile's own check
      for an empty content type changes no answer. */
  lemma EmptyIsNotTextContentType()
    ensures !IsTextContentType([])
  {
  }

  /** The extension is exactly the text after the last dot: it holds no dot,
      ends the name, and follows a dot; a name without a dot has none. */
  lemma ExtensionIsAfterLastDot(name: string)
    ensures '.' !in name ==> Extension(name) == []
    ensures '.' in name ==>
              var ext := Extension(name);
              |ext| < |name| && name[|name| - |ext| - 1] == '.' && name[|name| - |ext|..] == ext
  {
    SplitLast(name, '.');
  }

  /** A dotless path is text only through its content type. */
  lemma NoDotNoExtension(path: string, contentType: Option<string>)
    requires NormalizedPath(path) != [] && '.' !in NormalizedPath(path)
    ensures IsTextFile(path, contentType) <==> contentType.Some? && IsTextContentType(contentType.value)
  {
    ExtensionIsAfterLastDot(NormalizedPath(path));
    IsTextFileCases(path, contentType);
  }

  /** A stem and an extension, neither with a dot, joined by a dot. */
  lemma ExtensionOfDotted(stem: string, ext: string)
    requires '.' !in stem && '.' !in ext
    ensures Extension(stem + "." + ext) == ext
  {
    SplitJoin([stem, ext], '.');
    assert Join([stem, ext], ".") == stem + "." + ext;
  }

  /** `s.replace(/^\/+/, '')`: the suffix left after the leading slashes. */
  function StripLeadingSlashes(s: string): (r: string)
    ensures |r| <= |s| && r == s[|s| - |r|..]
    ensures forall i :: 0 <= i < |s| - |r| ==> s[i] == '/'
    ensures r == [] || r[0] != '/'
  {
    if s != [] && s[0] == '/' then StripLeadingSlashes(s[1..]) else s
  }

  /** The candidate path sanitizePath inspects: trimmed, leading slashes removed. */
  function Candidate(path: string): string {
    StripLeadingSlashes(Trim(path))
  }

  /** sanitizePath: the candidate, unless it is empty, contains `..` anywhere,
      or contains a backslash. */
  function SanitizePath(path: string): (r: Option<string>)
    ensures r.None? <==> Candidate(path) == [] || HasInfix(Candidate(path), "..")
                         || HasInfix(Candidate(path), "\\")
    ensures r.Some? ==> r.value == Candidate(path)
  {
    var trimmed := Candidate(path);
    if trimmed == [] || HasInfix(trimmed, "..") || HasInfix(trimmed, "\\") then None
    else Some(trimmed)
  }

  /** An accepted path is a non-empty piece of the input that does not start
      with a slash and holds neither `..` nor a backslash. */
  lemma SanitizedPathIsSafe(path: string)
    requires SanitizePath(path).Some?
    ensures var p := SanitizePath(path).value;
            && p != [] && p[0] != '/' && !HasInfix(p, "..") && '\\' !in p
            && HasInfix(path, p)
  {
    NoBackslash(path);
    CandidateIsInfix(path);
  }

  /** The candidate is a piece of the input. */
  lemma CandidateIsInfix(path: string)
    ensures HasInfix(path, Candidate(path))
  {
    var t := Trim(path);
    var p := StripLeadingSlashes(t);
    assert IsInfixAt(p, t, |t| - |p|);
    TrimIsInfix(path);
    InfixTransitive(p, t, path);
  }

  lemma NoBackslash(path: string)
    requires SanitizePath(path).Some?
    ensures '\\' !in SanitizePath(path).value
  {
    NoInfixNoChar(Candidate(path), '\\');
  }

  /** A string without a given one-character piece lacks that character. */
  lemma NoInfixNoChar(s: string, c: char)
    requires !HasInfix(s, [c])
    ensures c !in s
  {
    if c in s {
      var i :| 0 <= i < |s| && s[i] == c;
      assert IsInfixAt([c], s, i);
      assert false;
    }
  }

  /** Sanitizing an accepted path again accepts it unchanged, provided it does
      not begin with white space (which the second pass would trim). */
  lemma SanitizeStable(path: string)
    requires SanitizePath(path).Some?
    requires !IsSpace(SanitizePath(path).value[0])
    ensures SanitizePath(SanitizePath(path).value) == SanitizePath(path)
  {
    var p := SanitizePath(path).value;
    var t := Trim(path);
    assert p == StripLeadingSlashes(t);
    assert IsTrimmed(p) by {
      assert p == t[|t| - |p|..];
      assert p[|p| - 1] == t[|t| - 1];
    }
    calc {
      Candidate(p);
    == { TrimOfTrimmed(p); }
      StripLeadingSlashes(p);
    == { NoSlashToStrip(p); }
      p;
    }
    SameCandidate(p, path);
  }

  /** sanitizePath depends on its input only through the candidate. */
  lemma SameCandidate(a: string, b: string)
    requires Candidate(a) == Candidate(b)
    ensures SanitizePath(a) == SanitizePath(b)
  {
  }

  /** The white-space proviso is needed: a slash before a space hides the space
      from the first trim, so a second pass trims it (`/ a`, then ` a`, then `a`). */
  lemma SanitizeNotIdempotent(path: string)
    requires |path| == 3 && path[0] == '/' && path[1] == ' ' && path[2] == 'a'
    ensures SanitizePath(path) == Some(path[1..])
    ensures SanitizePath(path[1..]) == Some(path[2..])
  {
    SlashSpaceAccepted(path);
    SpaceAccepted(path[1..]);
    assert path[1..][1..] == path[2..];
  }

  lemma SlashSpaceAccepted(path: string)
    requires |path| == 3 && path[0] == '/' && path[1] == ' ' && path[2] == 'a'
    ensures SanitizePath(path) == Some(path[1..])
  {
    SlashSpaceCandidate(path);
    AcceptedCandidate(path, path[1..]);
  }

  lemma SpaceAccepted(path: string)
    requires |path| == 2 && path[0] == ' ' && path[1] == 'a'
    ensures SanitizePath(path) == Some(path[1..])
  {
    SpaceCandidate(path);
    AcceptedCandidate(path, path[1..]);
  }

  /** A non-empty candidate without dots or backslashes is accepted as it is. */
  lemma AcceptedCandidate(path: string, c: string)
    requires Candidate(path) == c && c != []
    requires forall i :: 0 <= i < |c| ==> c[i] != '.' && c[i] != '\\'
    ensures SanitizePath(path) == Some(c)
  {
    SanitizeAcceptsPlain(path);
  }

  lemma SlashSpaceCandidate(path: string)
    requires |path| == 3 && path[0] == '/' && path[1] == ' ' && path[2] == 'a'
    ensures Candidate(path) == path[1..]
  {
    assert IsTrimmed(path);
    calc {
      Candidate(path);
    == { TrimOfTrimmed(path); }
      StripLeadingSlashes(path);
    == { StripOneSlash(path); }
      StripLeadingSlashes(path[1..]);
    == { NoSlashToStrip(path[1..]); }
      path[1..];
    }
  }

  lemma SpaceCandidate(path: string)
    requires |path| == 2 && path[0] == ' ' && path[1] == 'a'
    ensures Candidate(path) == path[1..]
  {
    assert IsSpace(path[0]) && !IsSpace(path[1]);
    calc {
      Candidate(path);
    == { LeadingSpaceTrimmed(path); }
      StripLeadingSlashes(path[1..]);
    == { NoSlashToStrip(path[1..]); }
      path[1..];
    }
  }

  lemma StripOneSlash(s: string)
    requires s != [] && s[0] == '/'
    ensures StripLeadingSlashes(s) == StripLeadingSlashes(s[1..])
  {
  }

  lemma NoSlashToStrip(s: string)
    requires s != [] && s[0] != '/'
    ensures StripLeadingSlashes(s) == s
  {
  }

  lemma LeadingSpaceTrimmed(path: string)
    requires |path| == 2 && IsSpace(path[0]) && !IsSpace(path[1])
    ensures Trim(path) == path[1..]
  {
    var q := path[1..];
    assert TrimStart(path) == TrimStart(q);
    assert TrimStart(q) == q;
    assert TrimEnd(q) == q;
  }

  /** A non-empty candidate with no dot and no backslash is accepted. */
  lemma SanitizeAcceptsPlain(path: string)
    requires Candidate(path) != [] && '.' !in Candidate(path) && '\\' !in Candidate(path)
    ensures SanitizePath(path) == Some(Candidate(path))
  {
    NoInfixWithoutChar(Candidate(path), "..", '.');
    NoInfixWithoutChar(Candidate(path), "\\", '\\');
  }

  /** A string cannot hold a piece with a character it lacks. */
  lemma NoInfixWithoutChar(s: string, pat: string, c: char)
    requires c in pat && c !in s
    ensures !HasInfix(s, pat)
  {
    if HasInfix(s, pat) {
      InfixChars(s, pat);
    }
  }

  /** The empty path is refused. */
  lemma EmptyPathExample()
    ensures SanitizePath("") == None
  {
    assert Trim("") == "";
  }
}
