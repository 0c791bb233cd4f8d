/** The text embedded for search when a skill version is published
    (buildEmbeddingText in convex/lib/skills.ts): the header fields, the
    readme and every other text file, separated by blank lines and cut to a
    maximum length. */
module EmbeddingText {
  import opened Wrappers
  import opened JsStrings
  import Frontmatter

  /** A file other than the readme, with its path and its text. */
  datatype OtherFile = OtherFile(path: string, content: string)

  /** The maximum length used when the caller gives none. */
  const DefaultMaxChars: int := 200000

  /** A header field: the frontmatter value, or nothing when it is absent. */
  function Field(frontmatter: Frontmatter.ParsedFrontmatter, key: string): (r: string)
    ensures key in frontmatter ==> r == frontmatter[key]
    ensures key !in frontmatter ==> r == []
  {
    Frontmatter.GetFrontmatterValue(frontmatter, key).GetOr([])
  }

  /** The non-empty values of `name`, `description`, `homepage`, `website`,
      `url` and `emoji`, in that order. */
  function HeaderParts(frontmatter: Frontmatter.ParsedFrontmatter): (r: seq<string>)
    ensures |r| <= 6
    ensures forall p :: p in r ==> p != []
  {
    DropEmpty([
      Field(frontmatter, "name"), Field(frontmatter, "description"),
      Field(frontmatter, "homepage"), Field(frontmatter, "website"),
      Field(frontmatter, "url"), Field(frontmatter, "emoji")])
  }

  /** The keys whose values head the text, in order. */
  const HeaderKeys: seq<string> := ["name", "description", "homepage", "website", "url", "emoji"]

  /** The header line a key contributes: its value when present and
      non-empty, and nothing otherwise. */
  function Present(frontmatter: Frontmatter.ParsedFrontmatter, key: string): (r: seq<string>)
    ensures r == [] || (key in frontmatter && r == [frontmatter[key]])
    ensures r != [] <==> key in frontmatter && frontmatter[key] != []
  {
    if key in frontmatter && frontmatter[key] != [] then [frontmatter[key]] else []
  }

  /** A one-field list filters to the key's header line. */
  lemma DropEmptyField(frontmatter: Frontmatter.ParsedFrontmatter, key: string)
    ensures DropEmpty([Field(frontmatter, key)]) == Present(frontmatter, key)
  {
    assert [Field(frontmatter, key)][1..] == [];
  }

  /** The header is exactly the present, non-empty values of the six keys, in
      key order: `name`, `description`, `homepage`, `website`, `url`, `emoji`. */
  lemma HeaderPartsInOrder(frontmatter: Frontmatter.ParsedFrontmatter)
    ensures HeaderParts(frontmatter)
         == Present(frontmatter, "name") + Present(frontmatter, "description")
            + Present(frontmatter, "homepage") + Present(frontmatter, "website")
            + Present(frontmatter, "url") + Present(frontmatter, "emoji")
  {
    var a, b, c := [Field(frontmatter, "name")], [Field(frontmatter, "description")], [Field(frontmatter, "homepage")];
    var d, e, f := [Field(frontmatter, "website")], [Field(frontmatter, "url")], [Field(frontmatter, "emoji")];
    assert a + b + c + d + e + f == [
      Field(frontmatter, "name"), Field(frontmatter, "description"),
      Field(frontmatter, "homepage"), Field(frontmatter, "website"),
      Field(frontmatter, "url"), Field(frontmatter, "emoji")];
    DropEmptyAppend(a + b + c + d + e, f);
    DropEmptyAppend(a + b + c + d, e);
    DropEmptyAppend(a + b + c, d);
    DropEmptyAppend(a + b, c);
    DropEmptyAppend(a, b);
    DropEmptyField(frontmatter, "name");
    DropEmptyField(frontmatter, "description");
    DropEmptyField(frontmatter, "homepage");
    DropEmptyField(frontmatter, "website");
    DropEmptyField(frontmatter, "url");
    DropEmptyField(frontmatter, "emoji");
  }

  /** A file's block: a `# ` heading line with its path, then its text. */
  function FileBlock(file: OtherFile): (r: string)
    ensures r != []
    ensures HasInfix(r, file.path) && HasInfix(r, file.content)
  {
    var block := "# " + file.path + "\n" + file.content;
    InfixOfConcat("# ", file.path, "\n" + file.content);
    assert "# " + file.path + ("\n" + file.content) == block;
    InfixOfConcat("# " + file.path + "\n", file.content, []);
    assert "# " + file.path + "\n" + file.content + [] == block;
    block
  }

  /** The blocks that go into the text: the header lines, the readme and one
      block per file, with the empty ones dropped. */
  function Sections(frontmatter: Frontmatter.ParsedFrontmatter, readme: string, files: seq<OtherFile>): (r: seq<string>)
    ensures forall p :: p in r ==> p != []
  {
    DropEmpty([Join(HeaderParts(frontmatter), "\n"), readme] + MapSeq(FileBlock, files))
  }

  /** The text before truncation: the sections separated by blank lines. */
  function RawText(frontmatter: Frontmatter.ParsedFrontmatter, readme: string, files: seq<OtherFile>): string {
    Join(Sections(frontmatter, readme, files), "\n\n")
  }

  /** `s.slice(0, end)`: a negative end counts back from the end of `s`, and
      the end is clamped to the string. */
  function SlicePrefix(s: string, end: int): (r: string)
    ensures |r| <= |s| && r == s[..|r|]
    ensures 0 <= end ==> |r| == if end < |s| then end else |s|
    ensures end < 0 ==> |r| == if |s| + end > 0 then |s| + end else 0
  {
    var stop := if end < 0 then |s| + end else end;
    if stop <= 0 then [] else if stop >= |s| then s else s[..stop]
  }

  /** The text kept: the whole text when it fits, otherwise its first
      `maxChars` characters (with a negative bound read as `slice` does). */
  function Truncate(raw: string, maxChars: int): (r: string)
    ensures |r| <= |raw| && r == raw[..|r|]
    ensures |raw| <= maxChars ==> r == raw
    ensures 0 <= maxChars ==> |r| == if maxChars < |raw| then maxChars else |raw|
  {
    if |raw| <= maxChars then raw else SlicePrefix(raw, maxChars)
  }

  /** buildEmbeddingText, with `None` for an absent `maxChars`. */
  function BuildEmbeddingText(frontmatter: Frontmatter.ParsedFrontmatter, readme: string,
                              files: seq<OtherFile>, maxChars: Option<int>): (r: string)
    ensures r == Truncate(RawText(frontmatter, readme, files), maxChars.GetOr(DefaultMaxChars))
    ensures |r| <= |RawText(frontmatter, readme, files)|
    ensures r == RawText(frontmatter, readme, files)[..|r|]
    ensures 0 <= maxChars.GetOr(DefaultMaxChars) ==> |r| <= maxChars.GetOr(DefaultMaxChars)
  {
    Truncate(RawText(frontmatter, readme, files), maxChars.GetOr(DefaultMaxChars))
  }

  /** The result is a prefix of the full text, never longer than a
      non-negative bound, and the full text itself when that fits. */
  lemma BuildIsBoundedPrefix(frontmatter: Frontmatter.ParsedFrontmatter, readme: string,
                             files: seq<OtherFile>, maxChars: Option<int>)
    ensures var raw := RawText(frontmatter, readme, files);
            var limit := maxChars.GetOr(DefaultMaxChars);
            var r := BuildEmbeddingText(frontmatter, readme, files, maxChars);
            && |r| <= |raw| && r == raw[..|r|]
            && (0 <= limit ==> |r| <= limit)
            && (|raw| <= limit ==> r == raw)
            && (0 <= limit < |raw| ==> |r| == limit)
  {
  }

  /** Cutting an already cut text to the same non-negative bound changes nothing. */
  lemma TruncateIdempotent(raw: string, maxChars: int)
    requires 0 <= maxChars
    ensures Truncate(Truncate(raw, maxChars), maxChars) == Truncate(raw, maxChars)
  {
  }

  /** Each non-empty section appears in the full text. */
  lemma SectionInText(frontmatter: Frontmatter.ParsedFrontmatter, readme: string,
                      files: seq<OtherFile>, p: string)
    requires p in [Join(HeaderParts(frontmatter), "\n"), readme] + MapSeq(FileBlock, files)
    requires p != []
    ensures HasInfix(RawText(frontmatter, readme, files), p)
  {
    JoinContainsMember(Sections(frontmatter, readme, files), "\n\n", p);
  }

  /** The readme, when there is one, is in the full text. */
  lemma ReadmeInText(frontmatter: Frontmatter.ParsedFrontmatter, readme: string, files: seq<OtherFile>)
    requires readme != []
    ensures HasInfix(RawText(frontmatter, readme, files), readme)
  {
    SectionInText(frontmatter, readme, files, readme);
  }

  /** Every file's path and text are in the full text. */
  lemma FileInText(frontmatter: Frontmatter.ParsedFrontmatter, readme: string,
                   files: seq<OtherFile>, i: nat)
    requires i < |files|
    ensures var raw := RawText(frontmatter, readme, files);
            HasInfix(raw, files[i].path) && HasInfix(raw, files[i].content)
  {
    var block := FileBlock(files[i]);
    var all := [Join(HeaderParts(frontmatter), "\n"), readme] + MapSeq(FileBlock, files);
    assert all[i + 2] == block;
    SectionInText(frontmatter, readme, files, block);
    InfixTransitive(files[i].path, block, RawText(frontmatter, readme, files));
    InfixTransitive(files[i].content, block, RawText(frontmatter, readme, files));
  }

  /** Every header value present is in the full text. */
  lemma HeaderInText(frontmatter: Frontmatter.ParsedFrontmatter, readme: string,
                     files: seq<OtherFile>, p: string)
    requires p in HeaderParts(frontmatter)
    ensures HasInfix(RawText(frontmatter, readme, files), p)
  {
    var header := Join(HeaderParts(frontmatter), "\n");
    JoinContainsMember(HeaderParts(frontmatter), "\n", p);
    assert header != [] by {
      InfixChars(header, p);
      assert p[0] in header;
    }
    SectionInText(frontmatter, readme, files, header);
    InfixTransitive(p, header, RawText(frontmatter, readme, files));
  }

  /** The present, non-empty value of every header key is in the full text. */
  lemma HeaderFieldInText(frontmatter: Frontmatter.ParsedFrontmatter, readme: string,
                          files: seq<OtherFile>, key: string)
    requires key in HeaderKeys && key in frontmatter && frontmatter[key] != []
    ensures HasInfix(RawText(frontmatter, readme, files), frontmatter[key])
  {
    var fields := [
      Field(frontmatter, "name"), Field(frontmatter, "description"),
      Field(frontmatter, "homepage"), Field(frontmatter, "website"),
      Field(frontmatter, "url"), Field(frontmatter, "emoji")];
    var i :| 0 <= i < 6 && HeaderKeys[i] == key;
    assert fields[i] == Field(frontmatter, key) == frontmatter[key];
    assert frontmatter[key] in HeaderParts(frontmatter);
    HeaderInText(frontmatter, readme, files, frontmatter[key]);
  }

  /** One more file adds a blank line and its block at the end of the text. */
  lemma AddFileAppends(frontmatter: Frontmatter.ParsedFrontmatter, readme: string,
                       files: seq<OtherFile>, file: OtherFile)
    ensures var before := RawText(frontmatter, readme, files);
            RawText(frontmatter, readme, files + [file])
              == if before == [] then FileBlock(file) else before + "\n\n" + FileBlock(file)
  {
    var head := [Join(HeaderParts(frontmatter), "\n"), readme];
    MapSeqAppend(FileBlock, files, [file]);
    assert head + MapSeq(FileBlock, files + [file]) == (head + MapSeq(FileBlock, files)) + [FileBlock(file)];
    DropEmptyAppend(head + MapSeq(FileBlock, files), [FileBlock(file)]);
    assert DropEmpty([FileBlock(file)]) == [FileBlock(file)];
    var before := Sections(frontmatter, readme, files);
    assert Sections(frontmatter, readme, files + [file]) == before + [FileBlock(file)];
    if before == [] {
      assert Sections(frontmatter, readme, files + [file]) == [FileBlock(file)];
    } else {
      JoinSnoc(before, "\n\n", FileBlock(file));
      assert before[0] in before;
      JoinContains(before, "\n\n", 0);
    }
  }

  /** With no bound given, a 40000-character readme and nothing else is kept
      whole: the default bound is 200000 characters. */
  lemma DefaultBoundKeepsLongReadme(readme: string)
    requires |readme| == 40000
    ensures |BuildEmbeddingText(map[], readme, [], None)| == 40000
  {
    assert HeaderParts(map[]) == [];
    assert Join(HeaderParts(map[]), "\n") == [];
    assert MapSeq(FileBlock, []) == [];
    assert [[], readme] + MapSeq(FileBlock, []) == [[], readme];
    assert DropEmpty([readme]) == [readme];
    assert Sections(map[], readme, []) == [readme];
  }
}
