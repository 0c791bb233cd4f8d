/** The frontmatter reader of convex/lib/skills.ts (`parseFrontmatter`,
    `stripQuotes`, `getFrontmatterValue`): a `key: value` header between two
    `---` delimiters at the head of a SKILL.md. It never fails: a document
    without a well-formed header reads as the empty record. */
module Frontmatter {
  import opened Wrappers
  import opened JsStrings

  /** `ParsedSkillFrontmatter`: a record from key to string value. */
  type ParsedFrontmatter = map<string, string>

  /** The opening delimiter, which the normalised text must start with. */
  const Delimiter: string := "---"

  /** The closing delimiter searched for: a line feed followed by `---`.
      The rest of that line is not looked at, so a line that merely begins
      with `---` closes the header. */
  const Closing: string := "\n---"

  /** JavaScript ignores the assignment of a string to the `__proto__`
      property of a plain object, so this key is never recorded. */
  const ProtoKey: string := "__proto__"

  /** `content.replace(/\r\n/g, '\n').replace(/\r/g, '\n')`: every CR LF pair,
      then every lone CR, becomes one LF. */
  function NormalizeNewlines(s: string): (r: string)
    ensures '\r' !in r
    ensures |r| <= |s|
  {
    if s == [] then []
    else if s[0] == '\r' then
      if |s| >= 2 && s[1] == '\n' then "\n" + NormalizeNewlines(s[2..])
      else "\n" + NormalizeNewlines(s[1..])
    else [s[0]] + NormalizeNewlines(s[1..])
  }

  /** Text without a CR is already normalised, so normalising is idempotent. */
  lemma {:induction false} NormalizeNewlinesIdentity(s: string)
    requires '\r' !in s
    ensures NormalizeNewlines(s) == s
  {
    if s != [] {
      assert s[0] in s;
      assert forall c :: c in s[1..] ==> c in s;
      NormalizeNewlinesIdentity(s[1..]);
      assert s == [s[0]] + s[1..];
    }
  }

  /** `s.replace(/\r\n/g, '\n')`: the matches are found left to right and do
      not overlap, and each becomes one LF. */
  function ReplaceCrLf(s: string): (r: string)
    ensures |r| <= |s|
    ensures forall c :: c in r ==> c in s
    ensures '\r' !in s ==> r == s
  {
    if s == [] then []
    else if |s| >= 2 && s[0] == '\r' && s[1] == '\n' then "\n" + ReplaceCrLf(s[2..])
    else [s[0]] + ReplaceCrLf(s[1..])
  }

  /** `s.replace(/\r/g, '\n')`: every CR becomes an LF and every other
      character is kept in place. */
  function ReplaceCr(s: string): (r: string)
    ensures |r| == |s|
    ensures forall i :: 0 <= i < |s| ==> r[i] == if s[i] == '\r' then '\n' else s[i]
  {
    if s == [] then []
    else [if s[0] == '\r' then '\n' else s[0]] + ReplaceCr(s[1..])
  }

  /** The one-pass normalisation is the source's two global replacements,
      CR LF pairs first and the remaining CRs after, on every input. */
  lemma {:induction false} NormalizeNewlinesIsTwoReplaces(s: string)
    ensures NormalizeNewlines(s) == ReplaceCr(ReplaceCrLf(s))
  {
    if s == [] {
    } else if |s| >= 2 && s[0] == '\r' && s[1] == '\n' {
      NormalizeNewlinesIsTwoReplaces(s[2..]);
      assert ReplaceCrLf(s) == "\n" + ReplaceCrLf(s[2..]);
      assert ReplaceCr(ReplaceCrLf(s)) == "\n" + ReplaceCr(ReplaceCrLf(s[2..]));
    } else {
      NormalizeNewlinesIsTwoReplaces(s[1..]);
      assert ReplaceCrLf(s) == [s[0]] + ReplaceCrLf(s[1..]);
      assert ReplaceCr(ReplaceCrLf(s))
          == [if s[0] == '\r' then '\n' else s[0]] + ReplaceCr(ReplaceCrLf(s[1..]));
    }
  }

  /** `s.indexOf('\n---', from)`: the first index at or after `from` where the
      closing delimiter starts. */
  function IndexOfClosing(s: string, from: nat): (r: Option<nat>)
    decreases |s| - from
    ensures r.Some? ==> from <= r.value && IsInfixAt(Closing, s, r.value)
    ensures r.Some? ==> forall i :: from <= i < r.value ==> !IsInfixAt(Closing, s, i)
    ensures r.None? ==> forall i :: from <= i ==> !IsInfixAt(Closing, s, i)
  {
    if from + |Closing| > |s| then None
    else if IsInfixAt(Closing, s, from) then Some(from)
    else IndexOfClosing(s, from + 1)
  }

  /** The header block between the delimiters (`normalized.slice(4, endIndex)`),
      or None when the text does not start with `---` or no `\n---` occurs at
      index 3 or later. A close at index 3 gives the empty block, since
      `slice(4, 3)` is empty. */
  function BlockOf(content: string): Option<string> {
    var n := NormalizeNewlines(content);
    if !(Delimiter <= n) then None
    else
      match IndexOfClosing(n, 3)
      case None => None
      case Some(e) => Some(if e >= 4 then n[4..e] else [])
  }

  /** `[\w-]`: an ASCII letter or digit, `_` or `-`. */
  predicate IsKeyChar(c: char) {
    ('A' <= c <= 'Z') || ('a' <= c <= 'z') || ('0' <= c <= '9') || c == '_' || c == '-'
  }

  /** The characters `.` does not match in a regular expression without the `s` flag. */
  predicate IsLineTerminator(c: char) {
    c == '\n' || c == '\r' || c == '\U{2028}' || c == '\U{2029}'
  }

  predicate HasLineTerminator(s: string) {
    exists i | 0 <= i < |s| :: IsLineTerminator(s[i])
  }

  /** After a colon at `n`, the rest of the line, past its leading white space,
      holds no line terminator, so `(.*)$` can match it. */
  predicate RestIsOneLine(line: string, n: nat)
    requires n < |line|
  {
    !HasLineTerminator(TrimStart(line[n + 1..]))
  }

  /** `match[2].trim()` for a colon at `n`: the rest of the line, trimmed. */
  function ValueAfter(line: string, n: nat): string
    requires n < |line|
  {
    Trim(line[n + 1..])
  }

  /** The length of the run of key characters that starts the line. */
  function KeyLength(line: string): (n: nat)
    ensures n <= |line|
    ensures forall i :: 0 <= i < n ==> IsKeyChar(line[i])
    ensures n == |line| || !IsKeyChar(line[n])
  {
    if line != [] && IsKeyChar(line[0]) then 1 + KeyLength(line[1..]) else 0
  }

  /** The key and the trimmed value of a line that matches the header pattern. */
  datatype LineMatch = LineMatch(key: string, value: string)

  /** `line.match(/^([\w-]+):\s*(.*)$/)` followed by `match[2].trim()`. The
      pattern matches exactly when the line is a non-empty run of key characters,
      a colon, then white space and a rest that holds no line terminator; the
      greedy `\s*` takes all the leading white space, so the rest is what is left
      after it. Indented lines never match. */
  function MatchLine(line: string): (r: Option<LineMatch>)
    ensures r.Some? ==>
      var k := r.value.key;
      && k != [] && |k| < |line| && line[..|k|] == k && line[|k|] == ':'
      && (forall c :: c in k ==> IsKeyChar(c))
      && RestIsOneLine(line, |k|)
      && r.value.value == ValueAfter(line, |k|)
  {
    var n := KeyLength(line);
    if n == 0 || n == |line| || line[n] != ':' then None
    else if !RestIsOneLine(line, n) then None
    else
      var k := line[..n];
      KeyRunChars(line);
      assert |k| == n;
      Some(LineMatch(k, ValueAfter(line, n)))
  }

  /** Every character of the leading key run is a key character. */
  lemma KeyRunChars(line: string)
    ensures forall c :: c in line[..KeyLength(line)] ==> IsKeyChar(c)
  {
    var n := KeyLength(line);
    forall c | c in line[..n]
      ensures IsKeyChar(c)
    {
      var i :| 0 <= i < n && line[..n][i] == c;
      assert line[i] == c;
    }
  }

  /** A colon preceded only by key characters ends the leading key run. */
  lemma ColonEndsKeyRun(line: string, n: nat)
    requires n < |line| && line[n] == ':'
    requires forall i :: 0 <= i < n ==> IsKeyChar(line[i])
    ensures n == KeyLength(line)
  {
    var kl := KeyLength(line);
    assert !IsKeyChar(line[n]);
    if kl < n {
      assert false;
    }
  }

  /** The pattern fails on a line exactly when every way of reading it as key
      characters, a colon and a rest leaves a line terminator after the leading
      white space of the rest (in particular, when there is no such reading). */
  lemma MatchLineFails(line: string)
    ensures MatchLine(line).None? <==>
      forall n :: 0 < n < |line| && line[n] == ':' && (forall i :: 0 <= i < n ==> IsKeyChar(line[i]))
        ==> !RestIsOneLine(line, n)
  {
    var kl := KeyLength(line);
    if MatchLine(line).None? {
      forall n | 0 < n < |line| && line[n] == ':' && (forall i :: 0 <= i < n ==> IsKeyChar(line[i]))
        ensures !RestIsOneLine(line, n)
      {
        ColonEndsKeyRun(line, n);
      }
    } else {
      assert 0 < kl < |line| && line[kl] == ':';
      assert RestIsOneLine(line, kl);
    }
  }

  /** `value` starts and ends with the quote character `q` (one character can do both). */
  predicate QuotedBy(value: string, q: char) {
    |value| >= 1 && value[0] == q && value[|value| - 1] == q
  }

  /** `stripQuotes`: removes one outer pair of `"` or `'` (`slice(1, -1)`, which
      is empty for a lone quote) and leaves any other value as it is. */
  function StripQuotes(value: string): (r: string)
    ensures r == value <==> !(QuotedBy(value, '"') || QuotedBy(value, '\''))
    ensures r != value ==> |r| == if |value| >= 2 then |value| - 2 else 0
    ensures HasInfix(value, r)
  {
    if QuotedBy(value, '"') || QuotedBy(value, '\'') then
      var r := if |value| >= 2 then value[1..|value| - 1] else [];
      assert IsInfixAt(r, value, if |value| >= 2 then 1 else 0);
      r
    else
      assert IsInfixAt(value, value, 0);
      value
  }

  /** Quoting a string with either quote character and stripping gives it back. */
  lemma StripQuotesRoundTrip(s: string, q: char)
    requires q == '"' || q == '\''
    ensures StripQuotes([q] + s + [q]) == s
  {
    assert ([q] + s + [q])[1..|s| + 1] == s;
  }

  /** The entry a header line records, if any: its key and its quote-stripped
      value. A line records nothing when it does not match, when its trimmed
      value is empty, or when its key is `__proto__`. */
  function LineEntry(line: string): (r: Option<LineMatch>)
    ensures r.Some? ==> r.value.key != [] && r.value.key != ProtoKey
  {
    match MatchLine(line)
    case None => None
    case Some(m) =>
      if m.key == [] || m.value == [] || m.key == ProtoKey then None
      else Some(LineMatch(m.key, StripQuotes(m.value)))
  }

  /** The entries the header lines record, one per line. */
  function LineEntries(lines: seq<string>): (es: seq<Option<LineMatch>>)
    ensures |es| == |lines|
    ensures forall i :: 0 <= i < |lines| ==> es[i] == LineEntry(lines[i])
  {
    seq(|lines|, i requires 0 <= i < |lines| => LineEntry(lines[i]))
  }

  /** No entry is for the empty key or for `__proto__`. */
  predicate UsableKeys(es: seq<Option<LineMatch>>) {
    forall i :: 0 <= i < |es| && es[i].Some? ==> es[i].value.key != [] && es[i].value.key != ProtoKey
  }

  /** The record built by applying the entries in order. */
  function ApplyEntries(es: seq<Option<LineMatch>>): (r: ParsedFrontmatter)
    ensures UsableKeys(es) ==> [] !in r && ProtoKey !in r
  {
    if es == [] then map[]
    else
      assert UsableKeys(es) ==> UsableKeys(es[..|es| - 1]);
      var fm := ApplyEntries(es[..|es| - 1]);
      match es[|es| - 1]
      case None => fm
      case Some(e) => fm[e.key := e.value]
  }

  /** `e` is an entry for `key`. */
  predicate EntryFor(e: Option<LineMatch>, key: string) {
    e.Some? && e.value.key == key
  }

  /** The record left after the loop has run over `lines`. */
  function RecordLines(lines: seq<string>): (r: ParsedFrontmatter)
    ensures [] !in r && ProtoKey !in r
  {
    ApplyEntries(LineEntries(lines))
  }

  /** One more line for the loop: its entry, if any, is applied last. */
  lemma RecordLinesStep(lines: seq<string>, i: nat)
    requires i < |lines|
    ensures RecordLines(lines[..i + 1]) ==
      match LineEntry(lines[i])
      case None => RecordLines(lines[..i])
      case Some(e) => RecordLines(lines[..i])[e.key := e.value]
  {
    var es := LineEntries(lines[..i + 1]);
    assert es[..i] == LineEntries(lines[..i]);
  }

  /** What `parseFrontmatter(content)` returns. */
  function FrontmatterOf(content: string): (r: ParsedFrontmatter)
    ensures BlockOf(content).None? ==> r == map[]
    ensures [] !in r && ProtoKey !in r
  {
    match BlockOf(content)
    case None => map[]
    case Some(block) => RecordLines(Split(block, '\n'))
  }

  /** `parseFrontmatter`: normalise line ends, find the delimiters, then record
      the lines of the block one by one. */
  method ParseFrontmatter(content: string) returns (frontmatter: ParsedFrontmatter)
    ensures frontmatter == FrontmatterOf(content)
  {
    frontmatter := map[];
    var normalized := NormalizeNewlines(content);
    if !(Delimiter <= normalized) {
      return;
    }
    var endIndex := IndexOfClosing(normalized, 3);
    if endIndex.None? {
      return;
    }
    var block := if endIndex.value >= 4 then normalized[4..endIndex.value] else [];
    var lines := Split(block, '\n');
    for i := 0 to |lines|
      invariant frontmatter == RecordLines(lines[..i])
    {
      RecordLinesStep(lines, i);
      var m := MatchLine(lines[i]);
      if m.None? {
        continue;
      }
      var key := m.value.key;
      var rawValue := m.value.value;
      if key == [] || rawValue == [] {
        continue;
      }
      // the `__proto__` setter ignores a string, so the assignment does nothing
      if key != ProtoKey {
        frontmatter := frontmatter[key := StripQuotes(rawValue)];
      }
    }
    assert lines[..|lines|] == lines;
  }

  /** A key is in the record exactly when some entry is for it. */
  lemma {:induction false} ApplyEntriesHas(es: seq<Option<LineMatch>>, key: string)
    ensures key in ApplyEntries(es) <==> exists i :: 0 <= i < |es| && EntryFor(es[i], key)
  {
    if es != [] {
      var init, last := es[..|es| - 1], |es| - 1;
      ApplyEntriesHas(init, key);
      if key in ApplyEntries(es) && !EntryFor(es[last], key) {
        var i :| 0 <= i < |init| && EntryFor(init[i], key);
        assert EntryFor(es[i], key);
      }
      if exists i :: 0 <= i < |es| && EntryFor(es[i], key) {
        var i :| 0 <= i < |es| && EntryFor(es[i], key);
        if i < last {
          assert EntryFor(init[i], key);
        }
      }
    }
  }

  /** The value of a key is that of the last entry for it: a later duplicate
      overwrites an earlier one. */
  lemma {:induction false} ApplyEntriesLastWins(es: seq<Option<LineMatch>>, key: string, i: nat)
    requires i < |es| && EntryFor(es[i], key)
    requires forall j :: i < j < |es| ==> !EntryFor(es[j], key)
    ensures key in ApplyEntries(es) && ApplyEntries(es)[key] == es[i].value.value
  {
    if i < |es| - 1 {
      var init := es[..|es| - 1];
      assert forall j :: i < j < |init| ==> init[j] == es[j];
      ApplyEntriesLastWins(init, key, i);
    }
  }

  /** Each value in the record is that of some entry for its key. */
  lemma {:induction false} ApplyEntriesValue(es: seq<Option<LineMatch>>, key: string)
    requires key in ApplyEntries(es)
    ensures exists i :: 0 <= i < |es| && EntryFor(es[i], key) && ApplyEntries(es)[key] == es[i].value.value
  {
    var init, last := es[..|es| - 1], |es| - 1;
    if !EntryFor(es[last], key) {
      ApplyEntriesValue(init, key);
      var i :| 0 <= i < |init| && EntryFor(init[i], key) && ApplyEntries(init)[key] == init[i].value.value;
      assert init[i] == es[i];
    }
  }

  /** A line with an entry for `key` is `key`, a colon and a rest whose trimmed
      form is non-empty; the entry's value is that trimmed rest, quote-stripped. */
  lemma LineEntryShape(line: string, key: string)
    requires EntryFor(LineEntry(line), key)
    ensures key != [] && key != ProtoKey && forall c :: c in key ==> IsKeyChar(c)
    ensures |key| < |line| && line[..|key|] == key && line[|key|] == ':'
    ensures MatchLine(line) == Some(LineMatch(key, Trim(line[|key| + 1..])))
    ensures Trim(line[|key| + 1..]) != []
    ensures LineEntry(line).value.value == StripQuotes(Trim(line[|key| + 1..]))
  {
    var m := MatchLine(line).value;
    assert m.key == key;
    assert m.value == ValueAfter(line, |key|) == Trim(line[|key| + 1..]);
    assert m.value != [];
  }

  /** Every recorded key is a non-empty run of `[A-Za-z0-9_-]` (never
      `__proto__`) that starts a line of the header block, followed by a colon;
      its value is the quote-stripped form of the line's trimmed, non-empty rest. */
  lemma FrontmatterEntries(content: string, key: string)
    requires key in FrontmatterOf(content)
    ensures key != [] && key != ProtoKey && forall c :: c in key ==> IsKeyChar(c)
    ensures BlockOf(content).Some?
    ensures exists line :: (line in Split(BlockOf(content).value, '\n') && EntryFor(LineEntry(line), key)
                            && FrontmatterOf(content)[key] == StripQuotes(Trim(line[|key| + 1..])))
  {
    var block := BlockOf(content).value;
    var lines := Split(block, '\n');
    var es := LineEntries(lines);
    assert FrontmatterOf(content) == ApplyEntries(es);
    ApplyEntriesValue(es, key);
    var i :| 0 <= i < |es| && EntryFor(es[i], key) && ApplyEntries(es)[key] == es[i].value.value;
    LineEntryShape(lines[i], key);
    assert lines[i] in lines;
  }

  /** Among the lines, the last one whose entry is for `key` gives its value:
      a later duplicate key overwrites an earlier one. */
  lemma RecordLinesLastWins(lines: seq<string>, key: string, i: nat)
    requires i < |lines| && EntryFor(LineEntry(lines[i]), key)
    requires forall j :: i < j < |lines| ==> !EntryFor(LineEntry(lines[j]), key)
    ensures key in RecordLines(lines)
    ensures RecordLines(lines)[key] == LineEntry(lines[i]).value.value
  {
    ApplyEntriesLastWins(LineEntries(lines), key, i);
  }

  /** A key is recorded exactly when some line has an entry for it: lines that
      do not match, or whose value is empty, are skipped. */
  lemma RecordLinesHas(lines: seq<string>, key: string)
    ensures key in RecordLines(lines) <==> exists line :: line in lines && EntryFor(LineEntry(line), key)
  {
    var es := LineEntries(lines);
    ApplyEntriesHas(es, key);
    if exists line :: line in lines && EntryFor(LineEntry(line), key) {
      var line :| line in lines && EntryFor(LineEntry(line), key);
      var i :| 0 <= i < |lines| && lines[i] == line;
      assert EntryFor(es[i], key);
    }
    if key in ApplyEntries(es) {
      var i :| 0 <= i < |es| && EntryFor(es[i], key);
      assert lines[i] in lines;
    }
  }

  /** The record is empty when the normalised text does not start with `---`,
      and when no `\n---` starts at index 3 or later. */
  lemma FrontmatterEmptyWithoutDelimiters(content: string)
    ensures !(Delimiter <= NormalizeNewlines(content)) ==> FrontmatterOf(content) == map[]
    ensures (forall i :: 3 <= i ==> !IsInfixAt(Closing, NormalizeNewlines(content), i))
              ==> FrontmatterOf(content) == map[]
  {
  }

  /** `getFrontmatterValue`: the value stored under `key`, if any. */
  function GetFrontmatterValue(frontmatter: ParsedFrontmatter, key: string): (r: Option<string>)
    ensures r.Some? <==> key in frontmatter
    ensures r.Some? ==> r.value == frontmatter[key]
  {
    if key in frontmatter then Some(frontmatter[key]) else None
  }
}
