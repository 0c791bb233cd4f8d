/** The `clawdis` block of a skill's `metadata` frontmatter field: a JSON
    object whose string lists and install specifications are normalised
    before they are stored (parseClawdisMetadata, normalizeStringList and
    parseInstallSpec in convex/lib/skills.ts). */
module ClawdisMetadata {
  import opened Wrappers
  import opened JsStrings
  import opened Json
  import Frontmatter

  /** The package managers an install step may name. */
  datatype InstallKind = Brew | Node | Go | Uv

  function KindName(k: InstallKind): string {
    match k
    case Brew => "brew"
    case Node => "node"
    case Go => "go"
    case Uv => "uv"
  }

  /** A normalised kind text names an install kind exactly when it is one of
      the four names. */
  function KindOf(name: string): (r: Option<InstallKind>)
    ensures r.Some? <==> name in {"brew", "node", "go", "uv"}
    ensures r.Some? ==> KindName(r.value) == name
  {
    if name == "brew" then Some(Brew)
    else if name == "node" then Some(Node)
    else if name == "go" then Some(Go)
    else if name == "uv" then Some(Uv)
    else None
  }

  lemma KindNameRoundTrip(k: InstallKind)
    ensures KindOf(KindName(k)) == Some(k)
  {
  }

  /** One install step. `bins` is present only when non-empty. */
  datatype InstallSpec = InstallSpec(
    kind: InstallKind,
    id: Option<string>,
    labelText: Option<string>,
    bins: Option<seq<string>>,
    formula: Option<string>,
    packageName: Option<string>,
    moduleName: Option<string>)

  datatype Requirements = Requirements(
    bins: seq<string>,
    anyBins: seq<string>,
    env: seq<string>,
    config: seq<string>)

  /** The stored metadata. `os` and `install` are present only when non-empty. */
  datatype ClawdisSkillMetadata = ClawdisSkillMetadata(
    always: Option<bool>,
    emoji: Option<string>,
    homepage: Option<string>,
    skillKey: Option<string>,
    primaryEnv: Option<string>,
    os: Option<seq<string>>,
    requirements: Option<Requirements>,
    install: Option<seq<InstallSpec>>)

  /** A list of names given either as a JSON array (each element coerced to a
      string) or as one comma-separated string; trimmed, blanks dropped. A
      missing, falsy or other value gives no names. The coercion throws when
      an element of an array is an object with its own `toString` member. */
  function NormalizeStringList(input: Option<Json>): (r: Outcome<seq<string>>)
    ensures r.Threw? <==> ListThrows(input)
    ensures r.Returned? ==> forall p :: p in r.value ==> p != [] && IsTrimmed(p)
    ensures input.None? || !Truthy(input.value) ==> r == Returned([])
    ensures input.Some? && !input.value.JArray? && !input.value.JString? ==> r == Returned([])
    ensures input.Some? && input.value.JString? ==> r == Returned(CommaList(input.value.s))
    ensures input.Some? && input.value.JArray? && r.Returned? ==>
              r.value == CleanList(ItemStrings(input.value.items).value)
  {
    match input
    case None => Returned([])
    case Some(v) =>
      if !Truthy(v) then Returned([])
      else if v.JArray? then
        match ItemStrings(v.items)
        case Threw => Threw
        case Returned(strs) => Returned(CleanList(strs))
      else if v.JString? then Returned(CommaList(v.s))
      else Returned([])
  }

  /** The value is an array one of whose elements makes `String` throw. */
  predicate ListThrows(input: Option<Json>) {
    input.Some? && input.value.JArray? && HasThrowingItem(input.value.items)
  }

  /** The names an array holds, read back element by element. */
  lemma NormalizeArrayMembers(items: seq<Json>, p: string)
    ensures NormalizeStringList(Some(JArray(items))).Returned? ==>
              (p in NormalizeStringList(Some(JArray(items))).value
               <==> p != [] && exists i :: 0 <= i < |items| && ToJsString(items[i]).Returned?
                                           && Trim(ToJsString(items[i]).value) == p)
  {
    var n := NormalizeStringList(Some(JArray(items)));
    if n.Returned? {
      var strs := ItemStrings(items).value;
      assert n.value == CleanList(strs);
      assert forall i :: 0 <= i < |items| ==> ToJsString(items[i]) == Returned(strs[i]);
      StringsMembers(items, strs, p);
    }
  }

  lemma StringsMembers(items: seq<Json>, strs: seq<string>, p: string)
    requires |strs| == |items|
    requires forall i :: 0 <= i < |items| ==> ToJsString(items[i]) == Returned(strs[i])
    ensures (exists q :: q in strs && Trim(q) == p)
        <==> exists i :: 0 <= i < |items| && ToJsString(items[i]).Returned?
                         && Trim(ToJsString(items[i]).value) == p
  {
    if exists q :: q in strs && Trim(q) == p {
      var q :| q in strs && Trim(q) == p;
      var i :| 0 <= i < |strs| && strs[i] == q;
      assert ToJsString(items[i]).value == q;
    }
    if exists i :: 0 <= i < |items| && ToJsString(items[i]).Returned?
                   && Trim(ToJsString(items[i]).value) == p {
      var i :| 0 <= i < |items| && ToJsString(items[i]).Returned?
               && Trim(ToJsString(items[i]).value) == p;
      assert strs[i] in strs;
    }
  }

  /** The names of an array keep the order of its elements, and a throwing
      element in either part makes the whole list throw. */
  lemma NormalizeArrayAppend(a: seq<Json>, b: seq<Json>)
    ensures NormalizeStringList(Some(JArray(a + b)))
         == if NormalizeStringList(Some(JArray(a))).Returned?
               && NormalizeStringList(Some(JArray(b))).Returned?
            then Returned(NormalizeStringList(Some(JArray(a))).value
                          + NormalizeStringList(Some(JArray(b))).value)
            else Threw
  {
    ItemStringsAppend(a, b);
    if ItemStrings(a).Returned? && ItemStrings(b).Returned? {
      CleanListAppend(ItemStrings(a).value, ItemStrings(b).value);
    }
  }

  function Strings(names: seq<string>): (r: seq<Json>)
    ensures |r| == |names|
    ensures forall i :: 0 <= i < |names| ==> r[i] == JString(names[i])
  {
    seq(|names|, i requires 0 <= i < |names| => JString(names[i]))
  }

  /** Storing the normalised names back as a JSON array and normalising again
      changes nothing. */
  lemma NormalizeStringListIdempotent(input: Option<Json>)
    ensures NormalizeStringList(input).Returned? ==>
              NormalizeStringList(Some(JArray(Strings(NormalizeStringList(input).value))))
              == NormalizeStringList(input)
  {
    if NormalizeStringList(input).Returned? {
      var r := NormalizeStringList(input).value;
      var items := Strings(r);
      assert !HasThrowingItem(items);
      var strs := ItemStrings(items).value;
      assert forall i :: 0 <= i < |r| ==> ToJsString(items[i]) == Returned(r[i]);
      assert strs == r;
      CleanListOfClean(r);
    }
  }

  /** A string list given as a comma-separated string never throws, and the
      normalised names written out with commas normalise to themselves. */
  lemma NormalizeStringListCommaRoundTrip(s: string)
    ensures var r := NormalizeStringList(Some(JString(s)));
            r.Returned? && NormalizeStringList(Some(JString(Join(r.value, [','])))) == r
  {
    var r := NormalizeStringList(Some(JString(s)));
    CommaListRoundTrip(r.value);
  }

  /** The kind text: `kind` when it is a string, else `type` when it is a
      string, else empty. */
  function KindText(raw: Json): (r: string)
    ensures StringMember(raw, "kind").Some? ==> r == StringMember(raw, "kind").value
    ensures StringMember(raw, "kind").None? && StringMember(raw, "type").Some?
            ==> r == StringMember(raw, "type").value
    ensures StringMember(raw, "kind").None? && StringMember(raw, "type").None? ==> r == []
  {
    match StringMember(raw, "kind")
    case Some(k) => k
    case None => StringMember(raw, "type").GetOr([])
  }

  /** `kindRaw.trim().toLowerCase()` */
  function NormalizedKind(raw: Json): string {
    Lower(Trim(KindText(raw)))
  }

  /** An object whose normalised kind text names one of the four kinds. */
  predicate NamesKind(input: Json) {
    input.JObject? && KindOf(NormalizedKind(input)).Some?
  }

  /** The install step an entry describes, if any: the entry must be an object
      (or array, which has no members) whose trimmed, lower-cased kind text
      names one of the four kinds; string fields are kept only when they are
      strings, and `bins` only when it normalises to a non-empty list. The
      step throws when its `bins` list does. */
  function InstallSpecOf(input: Json): (r: Outcome<Option<InstallSpec>>)
    ensures r.Threw? <==> NamesKind(input) && ListThrows(Member(input, "bins"))
    ensures r.Returned? && r.value.Some? <==> NamesKind(input) && !ListThrows(Member(input, "bins"))
    ensures r.Returned? && r.value.Some? ==> KindName(r.value.value.kind) == NormalizedKind(input)
  {
    assert input.JObject? ==> Truthy(input) && IsObjectType(input);
    if !Truthy(input) || !IsObjectType(input) then Returned(None)
    else
      var kind := KindOf(NormalizedKind(input));
      if kind.None? then Returned(None)
      else if input.JArray? then ArrayHasNoKind(input); Returned(None)
      else match NormalizeStringList(Member(input, "bins"))
        case Threw => Threw
        case Returned(bins) => Returned(Some(SpecOf(kind.value, input, bins)))
  }

  /** The fields of the step an object of kind `kind` with binaries `bins`
      describes. */
  function SpecOf(kind: InstallKind, input: Json, bins: seq<string>): (r: InstallSpec)
    ensures r.kind == kind
    ensures r.bins.Some? <==> bins != []
  {
    InstallSpec(
      kind,
      StringMember(input, "id"),
      StringMember(input, "label"),
      if |bins| > 0 then Some(bins) else None,
      StringMember(input, "formula"),
      StringMember(input, "package"),
      StringMember(input, "module"))
  }

  /** An array has no `kind` or `type` member, so its kind text is empty and
      names no kind. */
  lemma ArrayHasNoKind(input: Json)
    requires input.JArray?
    ensures KindOf(NormalizedKind(input)).None?
  {
    assert KindText(input) == [];
    assert Trim([]) == [];
  }

  /** The step an object with a known kind and coercible binaries describes,
      field by field: each string field kept exactly when it is a string, and
      the binaries only when they normalise to a non-empty list. */
  lemma SpecFields(input: Json)
    requires NamesKind(input) && !ListThrows(Member(input, "bins"))
    ensures InstallSpecOf(input) == Returned(Some(InstallSpec(
              KindOf(NormalizedKind(input)).value,
              StringMember(input, "id"), StringMember(input, "label"),
              if NormalizeStringList(Member(input, "bins")).value == [] then None
              else Some(NormalizeStringList(Member(input, "bins")).value),
              StringMember(input, "formula"), StringMember(input, "package"),
              StringMember(input, "module"))))
  {
  }

  /** The source builds the step field by field; the method does the same and
      ends with the outcome `InstallSpecOf` describes, throwing where the
      binaries' coercion throws. */
  method ParseInstallSpec(input: Json) returns (spec: Outcome<Option<InstallSpec>>)
    ensures spec == InstallSpecOf(input)
  {
    if !Truthy(input) || !IsObjectType(input) {
      return Returned(None);
    }
    var name := NormalizedKind(input);
    var kind := KindOf(name);
    if input.JArray? {
      ArrayHasNoKind(input);
    }
    if kind.None? {
      return Returned(None);
    }
    var s := InstallSpec(kind.value, None, None, None, None, None, None);
    var id := StringMember(input, "id");
    if id.Some? { s := s.(id := id); }
    var labelText := StringMember(input, "label");
    if labelText.Some? { s := s.(labelText := labelText); }
    var bins := NormalizeStringList(Member(input, "bins"));
    if bins.Threw? {
      return Threw;
    }
    if |bins.value| > 0 { s := s.(bins := Some(bins.value)); }
    var formula := StringMember(input, "formula");
    if formula.Some? { s := s.(formula := formula); }
    var pkg := StringMember(input, "package");
    if pkg.Some? { s := s.(packageName := pkg); }
    var module_ := StringMember(input, "module");
    if module_.Some? { s := s.(moduleName := module_); }
    assert s == SpecOf(kind.value, input, bins.value);
    spec := Returned(Some(s));
  }

  /** `.filter(Boolean)` over steps and `undefined`s: the steps, in order. */
  function Somes<B(!new)>(xs: seq<Option<B>>): (r: seq<B>)
    ensures |r| <= |xs|
    ensures forall y :: y in r <==> Some(y) in xs
  {
    if xs == [] then []
    else
      var rest := Somes(xs[1..]);
      assert forall i :: 0 < i < |xs| ==> xs[i] == xs[1..][i - 1];
      (match xs[0] case Some(y) => [y] case None => []) + rest
  }

  /** Filtering keeps the order: the steps of a concatenation are the steps of
      each part, one after the other. */
  lemma {:induction false} SomesAppend<B(!new)>(a: seq<Option<B>>, b: seq<Option<B>>)
    ensures Somes(a + b) == Somes(a) + Somes(b)
  {
    if a == [] {
      assert a + b == b;
    } else {
      assert (a + b)[1..] == a[1..] + b;
      SomesAppend(a[1..], b);
    }
  }

  /** `install.map(parseInstallSpec).filter(Boolean)`: throws when one entry
      throws, and otherwise keeps exactly the entries that describe a step. */
  function InstallSpecs(items: seq<Json>): (r: Outcome<seq<InstallSpec>>)
    ensures r.Threw? <==> exists i :: 0 <= i < |items| && InstallSpecOf(items[i]).Threw?
    ensures r.Returned? ==>
              forall s :: s in r.value <==>
                exists i :: 0 <= i < |items| && InstallSpecOf(items[i]) == Returned(Some(s))
  {
    var outs := MapSeq(InstallSpecOf, items);
    match Collect(outs)
    case Threw => Threw
    case Returned(opts) =>
      assert forall s :: Some(s) in opts <==>
               exists i :: 0 <= i < |items| && InstallSpecOf(items[i]) == Returned(Some(s)) by {
        forall s ensures Some(s) in opts ==>
                     exists i :: 0 <= i < |items| && InstallSpecOf(items[i]) == Returned(Some(s)) {
          if Some(s) in opts {
            var i :| 0 <= i < |opts| && opts[i] == Some(s);
            assert outs[i] == Returned(opts[i]);
          }
        }
      }
      Returned(Somes(opts))
  }

  /** The install list keeps the order and the multiplicity of its entries:
      the steps of a concatenation are the steps of each part, one after the
      other, and a throw in either part makes the whole list throw. */
  lemma InstallSpecsAppend(a: seq<Json>, b: seq<Json>)
    ensures InstallSpecs(a + b)
         == if InstallSpecs(a).Returned? && InstallSpecs(b).Returned?
            then Returned(InstallSpecs(a).value + InstallSpecs(b).value)
            else Threw
  {
    var oa, ob := MapSeq(InstallSpecOf, a), MapSeq(InstallSpecOf, b);
    MapSeqAppend(InstallSpecOf, a, b);
    CollectAppend(oa, ob);
    if Collect(oa).Returned? && Collect(ob).Returned? {
      SomesAppend(Collect(oa).value, Collect(ob).value);
    }
  }

  /** One entry gives its step, nothing, or a throw, as `parseInstallSpec`
      does on it. */
  lemma InstallSpecsSingle(x: Json)
    ensures InstallSpecs([x])
         == match InstallSpecOf(x)
            case Threw => Threw
            case Returned(None) => Returned([])
            case Returned(Some(s)) => Returned([s])
  {
    var outs := MapSeq(InstallSpecOf, [x]);
    InstallSpecsBuilt([x]);
    match InstallSpecOf(x)
    case Threw =>
      assert outs[0].Threw?;
    case Returned(opt) =>
      var c := Collect(outs);
      assert outs[0] == Returned(opt);
      assert c.Returned? && |c.value| == 1 && c.value[0] == opt;
      assert c.value == [opt];
      SomesSingle(opt);
  }

  /** How the install list is built: the entries' outcomes collected, then
      the steps kept. */
  lemma InstallSpecsBuilt(items: seq<Json>)
    ensures InstallSpecs(items)
         == match Collect(MapSeq(InstallSpecOf, items))
            case Threw => Threw
            case Returned(opts) => Returned(Somes(opts))
  {
  }

  lemma SomesSingle<B(!new)>(x: Option<B>)
    ensures Somes([x]) == match x case Some(y) => [y] case None => []
  {
    assert [x][1..] == [];
  }

  /** The metadata a `clawdis` value describes, or `Threw` when one of the
      lists it reads makes `String` throw inside the source's `try`. */
  function MetadataOf(c: Json): (r: Outcome<ClawdisSkillMetadata>)
    ensures r.Threw? <==> InstallOf(Member(c, "install")).Threw? || OsOf(Member(c, "os")).Threw?
                          || RequirementsOf(Member(c, "requires")).Threw?
    ensures r.Returned? ==>
              && (r.value.always.Some? <==> Member(c, "always").Some? && Member(c, "always").value.JBool?)
              && (r.value.always.Some? ==> Member(c, "always") == Some(JBool(r.value.always.value)))
              && r.value.emoji == StringMember(c, "emoji")
              && r.value.homepage == StringMember(c, "homepage")
              && r.value.skillKey == StringMember(c, "skillKey")
              && r.value.primaryEnv == StringMember(c, "primaryEnv")
              && r.value.os == OsOf(Member(c, "os")).value
              && r.value.requirements == RequirementsOf(Member(c, "requires")).value
              && r.value.install == InstallOf(Member(c, "install")).value
  {
    var install := InstallOf(Member(c, "install"));
    var os := OsOf(Member(c, "os"));
    var requirements := RequirementsOf(Member(c, "requires"));
    if install.Threw? || os.Threw? || requirements.Threw? then Threw
    else Returned(ClawdisSkillMetadata(
      match Member(c, "always") case Some(JBool(b)) => Some(b) case _ => None,
      StringMember(c, "emoji"),
      StringMember(c, "homepage"),
      StringMember(c, "skillKey"),
      StringMember(c, "primaryEnv"),
      os.value,
      requirements.value,
      install.value))
  }

  /** The `os` list, left out when it is empty. */
  function OsOf(raw: Option<Json>): (r: Outcome<Option<seq<string>>>)
    ensures r.Threw? <==> ListThrows(raw)
    ensures r.Returned? ==> (r.value.Some? <==> NormalizeStringList(raw).value != [])
    ensures r.Returned? && r.value.Some? ==> r.value.value == NormalizeStringList(raw).value
  {
    match NormalizeStringList(raw)
    case Threw => Threw
    case Returned(os) => Returned(if |os| > 0 then Some(os) else None)
  }

  /** A `requires` value that is an object or an array (`typeof === 'object'`
      and not null). */
  predicate IsRequiresObject(req: Option<Json>) {
    req.Some? && IsObjectType(req.value) && !req.value.JNull?
  }

  /** The four requirement lists of a `requires` object; throws when one of
      the lists does. */
  function RequirementsOf(req: Option<Json>): (r: Outcome<Option<Requirements>>)
    ensures r.Threw? <==> IsRequiresObject(req)
                          && (ListThrows(Member(req.value, "bins")) || ListThrows(Member(req.value, "anyBins"))
                              || ListThrows(Member(req.value, "env")) || ListThrows(Member(req.value, "config")))
    ensures r.Returned? ==> (r.value.Some? <==> IsRequiresObject(req))
    ensures r.Returned? && r.value.Some? ==>
              r.value.value == Requirements(
                NormalizeStringList(Member(req.value, "bins")).value,
                NormalizeStringList(Member(req.value, "anyBins")).value,
                NormalizeStringList(Member(req.value, "env")).value,
                NormalizeStringList(Member(req.value, "config")).value)
  {
    if !IsRequiresObject(req) then Returned(None)
    else
      var bins := NormalizeStringList(Member(req.value, "bins"));
      var anyBins := NormalizeStringList(Member(req.value, "anyBins"));
      var env := NormalizeStringList(Member(req.value, "env"));
      var config := NormalizeStringList(Member(req.value, "config"));
      if bins.Threw? || anyBins.Threw? || env.Threw? || config.Threw? then Threw
      else Returned(Some(Requirements(bins.value, anyBins.value, env.value, config.value)))
  }

  /** The recognised install specs of an `install` array, left out when there
      are none; anything but an array counts as an empty array. */
  function InstallOf(raw: Option<Json>): (r: Outcome<Option<seq<InstallSpec>>>)
    ensures r.Threw? <==> raw.Some? && raw.value.JArray? && InstallSpecs(raw.value.items).Threw?
    ensures r.Returned? && r.value.Some? ==> r.value.value != []
    ensures r.Returned? && r.value.Some? <==>
              raw.Some? && raw.value.JArray? && InstallSpecs(raw.value.items).Returned?
              && InstallSpecs(raw.value.items).value != []
    ensures r.Returned? && r.value.Some? ==> r.value.value == InstallSpecs(raw.value.items).value
  {
    var items := match raw case Some(JArray(items)) => items case _ => [];
    match InstallSpecs(items)
    case Threw => Threw
    case Returned(install) => Returned(if |install| > 0 then Some(install) else None)
  }

  /** The metadata throws exactly when a list it reads holds an element that
      makes `String` throw: in `os`, in one of the four lists of a `requires`
      object, or in the `bins` of an install entry that names a kind. */
  lemma MetadataThrows(c: Json)
    ensures MetadataOf(c).Threw? <==>
              || ListThrows(Member(c, "os"))
              || (IsRequiresObject(Member(c, "requires"))
                  && var req := Member(c, "requires").value;
                     ListThrows(Member(req, "bins")) || ListThrows(Member(req, "anyBins"))
                     || ListThrows(Member(req, "env")) || ListThrows(Member(req, "config")))
              || (Member(c, "install").Some? && Member(c, "install").value.JArray?
                  && var items := Member(c, "install").value.items;
                     exists i :: 0 <= i < |items| && NamesKind(items[i]) && ListThrows(Member(items[i], "bins")))
  {
  }

  /** The `clawdis` value behind a frontmatter, when every step of the
      extraction finds what it needs: a non-empty `metadata` field, text that
      parses to an object, and a `clawdis` member that is an object or array.
      `parseJson` stands for `JSON.parse`, with `None` for text it rejects. */
  function ClawdisValue(frontmatter: Frontmatter.ParsedFrontmatter, parseJson: string -> Option<Json>): (r: Option<Json>)
    ensures r.Some? <==>
              "metadata" in frontmatter && frontmatter["metadata"] != []
              && parseJson(frontmatter["metadata"]).Some?
              && Member(parseJson(frontmatter["metadata"]).value, "clawdis").Some?
              && var c := Member(parseJson(frontmatter["metadata"]).value, "clawdis").value;
                 c.JObject? || c.JArray?
    ensures r.Some? ==> r == Member(parseJson(frontmatter["metadata"]).value, "clawdis")
  {
    match Frontmatter.GetFrontmatterValue(frontmatter, "metadata")
    case None => None
    case Some(raw) =>
      if raw == [] then None
      else match parseJson(raw)
        case None => None
        case Some(parsed) =>
          if !Truthy(parsed) || !IsObjectType(parsed) then None
          else match Member(parsed, "clawdis")
            case None => None
            case Some(c) => if !Truthy(c) || !IsObjectType(c) then None else Some(c)
  }

  /** parseClawdisMetadata: the metadata of the `clawdis` value, or nothing
      when the extraction stops early or a coercion throws inside the `try`. */
  function ParseClawdisMetadata(frontmatter: Frontmatter.ParsedFrontmatter, parseJson: string -> Option<Json>)
    : (r: Option<ClawdisSkillMetadata>)
    ensures r.Some? <==> ClawdisValue(frontmatter, parseJson).Some?
                         && MetadataOf(ClawdisValue(frontmatter, parseJson).value).Returned?
    ensures r.Some? ==> r.value == MetadataOf(ClawdisValue(frontmatter, parseJson).value).value
  {
    match ClawdisValue(frontmatter, parseJson)
    case None => None
    case Some(c) =>
      match MetadataOf(c)
      case Threw => None
      case Returned(md) => Some(md)
  }

  /** A `clawdis` value whose `os` array holds an object with its own
      `toString` member yields no metadata at all. */
  lemma ThrowingOsGivesNothing(frontmatter: Frontmatter.ParsedFrontmatter, parseJson: string -> Option<Json>,
                               items: seq<Json>)
    requires ClawdisValue(frontmatter, parseJson).Some?
    requires Member(ClawdisValue(frontmatter, parseJson).value, "os") == Some(JArray(items))
    requires |items| > 0 && items[0].JObject? && "toString" in items[0].members
    ensures ParseClawdisMetadata(frontmatter, parseJson).None?
  {
    assert StringThrows(items[0]);
    MetadataThrows(ClawdisValue(frontmatter, parseJson).value);
  }

  /** Every install step kept from a list names its binaries, if at all, as a
      non-empty list of trimmed, non-empty names. */
  lemma InstallBinsClean(items: seq<Json>)
    ensures InstallSpecs(items).Returned? ==>
              forall s :: s in InstallSpecs(items).value && s.bins.Some? ==>
                s.bins.value != [] && forall p :: p in s.bins.value ==> p != [] && IsTrimmed(p)
  {
    if InstallSpecs(items).Returned? {
      forall s | s in InstallSpecs(items).value && s.bins.Some?
        ensures s.bins.value != [] && forall p :: p in s.bins.value ==> p != [] && IsTrimmed(p)
      {
        var i :| 0 <= i < |items| && InstallSpecOf(items[i]) == Returned(Some(s));
        SpecFields(items[i]);
      }
    }
  }

  /** A `clawdis` array carries no members: it yields metadata with nothing set. */
  lemma ClawdisArrayIsEmpty(items: seq<Json>)
    ensures MetadataOf(JArray(items))
         == Returned(ClawdisSkillMetadata(None, None, None, None, None, None, None, None))
  {
  }
}
