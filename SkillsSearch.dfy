/** The URL search parameters of the skills list (src/routes/skills/index.tsx):
    how raw parameters are normalised, which sort and direction they select,
    and what the toolbar buttons write back. */
module SkillsSearch {
  import opened Wrappers
  import opened JsStrings

  /** A raw search parameter as the router hands it over: absent, a string,
      a boolean, or any other value. */
  datatype Param = Missing | Text(s: string) | Flag(b: bool) | OtherValue

  /** The six sort keys. */
  datatype SortKey = Newest | Downloads | Installs | Stars | Name | Updated

  datatype SortDir = Asc | Desc

  datatype View = Cards | List

  /** The text of a sort key in the URL. */
  function SortKeyName(k: SortKey): string {
    match k
    case Newest => "newest"
    case Downloads => "downloads"
    case Installs => "installs"
    case Stars => "stars"
    case Name => "name"
    case Updated => "updated"
  }

  /** The listed key a text names, if any. */
  function SortKeyOf(s: string): (r: Option<SortKey>)
    ensures r.Some? ==> SortKeyName(r.value) == s
  {
    if s == "newest" then Some(Newest)
    else if s == "downloads" then Some(Downloads)
    else if s == "installs" then Some(Installs)
    else if s == "stars" then Some(Stars)
    else if s == "name" then Some(Name)
    else if s == "updated" then Some(Updated)
    else None
  }

  /** Every key is found again from its text. */
  lemma SortKeyRoundTrip(k: SortKey)
    ensures SortKeyOf(SortKeyName(k)) == Some(k)
  {
  }

  /** parseSort: a string naming a listed key selects it; anything else
      selects `newest`. */
  function ParseSort(value: Param): (r: SortKey)
    ensures r == Newest || value == Text(SortKeyName(r))
    ensures value.Text? && SortKeyOf(value.s).Some? ==> r == SortKeyOf(value.s).value
  {
    match value
    case Text(s) => SortKeyOf(s).GetOr(Newest)
    case _ => Newest
  }

  /** parseSort reads back every key it can return. */
  lemma ParseSortRoundTrip(k: SortKey)
    ensures ParseSort(Text(SortKeyName(k))) == k
  {
    SortKeyRoundTrip(k);
  }

  /** The direction used when none is given: ascending for names, descending
      for every other key. */
  function DefaultDir(sort: SortKey): SortDir {
    if sort == Name then Asc else Desc
  }

  /** parseDir: `asc` and `desc` are kept; anything else gives the key's default. */
  function ParseDir(value: Param, sort: SortKey): (r: SortDir)
    ensures value == Text("asc") ==> r == Asc
    ensures value == Text("desc") ==> r == Desc
    ensures value != Text("asc") && value != Text("desc") ==> (r == Asc <==> sort == Name)
  {
    if value == Text("asc") then Asc
    else if value == Text("desc") then Desc
    else DefaultDir(sort)
  }

  function DirName(d: SortDir): string {
    match d
    case Asc => "asc"
    case Desc => "desc"
  }

  function ViewName(v: View): string {
    match v
    case Cards => "cards"
    case List => "list"
  }

  /** The raw search object: one parameter per key the page reads. */
  datatype RawSearch = RawSearch(q: Param, sort: Param, dir: Param, highlighted: Param, view: Param)

  /** The normalised search. `highlighted` is `true` or absent in the source;
      here absent is `false`. */
  datatype Search = Search(q: Option<string>, sort: Option<SortKey>, dir: Option<SortDir>,
                           highlighted: bool, view: Option<View>)

  /** The query: kept when it is a string that is not blank. */
  function QueryOf(q: Param): (r: Option<string>)
    ensures r.Some? <==> q.Text? && Trim(q.s) != []
    ensures r.Some? ==> r.value == q.s
  {
    if q.Text? && Trim(q.s) != [] then Some(q.s) else None
  }

  /** The sort: any string is read with parseSort; other values are dropped. */
  function SortOf(sort: Param): (r: Option<SortKey>)
    ensures r.Some? <==> sort.Text?
    ensures r.Some? ==> r.value == ParseSort(sort)
  {
    if sort.Text? then Some(ParseSort(sort)) else None
  }

  /** The direction: only `asc` and `desc` are kept. */
  function DirOf(dir: Param): (r: Option<SortDir>)
    ensures r.Some? <==> dir == Text("asc") || dir == Text("desc")
    ensures r.Some? ==> dir == Text(DirName(r.value))
  {
    if dir == Text("asc") then Some(Asc) else if dir == Text("desc") then Some(Desc) else None
  }

  /** The highlighted flag: set by `1`, `true` or the boolean true. */
  function HighlightedOf(highlighted: Param): (r: bool)
    ensures r <==> highlighted in {Text("1"), Text("true"), Flag(true)}
  {
    highlighted == Text("1") || highlighted == Text("true") || highlighted == Flag(true)
  }

  /** The view: only `cards` and `list` are kept. */
  function ViewOf(view: Param): (r: Option<View>)
    ensures r.Some? <==> view == Text("cards") || view == Text("list")
    ensures r.Some? ==> view == Text(ViewName(r.value))
  {
    if view == Text("cards") then Some(Cards) else if view == Text("list") then Some(List) else None
  }

  /** validateSearch: each parameter is normalised on its own, as the
      functions above say. */
  function ValidateSearch(raw: RawSearch): (r: Search)
    ensures r.q == QueryOf(raw.q) && r.sort == SortOf(raw.sort) && r.dir == DirOf(raw.dir)
    ensures r.highlighted == HighlightedOf(raw.highlighted) && r.view == ViewOf(raw.view)
    ensures WellFormed(r)
  {
    Search(QueryOf(raw.q), SortOf(raw.sort), DirOf(raw.dir), HighlightedOf(raw.highlighted), ViewOf(raw.view))
  }

  /** A normalised search written back as raw parameters. */
  function Serialize(s: Search): RawSearch {
    RawSearch(
      match s.q case Some(q) => Text(q) case None => Missing,
      match s.sort case Some(k) => Text(SortKeyName(k)) case None => Missing,
      match s.dir case Some(d) => Text(DirName(d)) case None => Missing,
      if s.highlighted then Flag(true) else Missing,
      match s.view case Some(v) => Text(ViewName(v)) case None => Missing)
  }

  /** A search whose query, if any, is not blank. */
  predicate WellFormed(s: Search) {
    s.q.Some? ==> Trim(s.q.value) != []
  }

  /** Normalising a well-formed search written out gives it back. */
  lemma ValidateSerialize(s: Search)
    requires WellFormed(s)
    ensures ValidateSearch(Serialize(s)) == s
  {
    QueryRoundTrip(s);
    SortRoundTrip(s);
    DirRoundTrip(s);
    HighlightedRoundTrip(s);
    ViewRoundTrip(s);
    Assemble(Serialize(s), s);
  }

  lemma Assemble(raw: RawSearch, s: Search)
    requires QueryOf(raw.q) == s.q && SortOf(raw.sort) == s.sort && DirOf(raw.dir) == s.dir
    requires HighlightedOf(raw.highlighted) == s.highlighted && ViewOf(raw.view) == s.view
    ensures ValidateSearch(raw) == s
  {
  }

  lemma QueryRoundTrip(s: Search)
    requires WellFormed(s)
    ensures QueryOf(Serialize(s).q) == s.q
  {
  }

  lemma SortRoundTrip(s: Search)
    ensures SortOf(Serialize(s).sort) == s.sort
  {
    if s.sort.Some? {
      ParseSortRoundTrip(s.sort.value);
    }
  }

  lemma DirRoundTrip(s: Search)
    ensures DirOf(Serialize(s).dir) == s.dir
  {
    if s.dir == Some(Desc) {
      assert DirName(Desc) == "desc" != "asc";
    }
  }

  lemma HighlightedRoundTrip(s: Search)
    ensures HighlightedOf(Serialize(s).highlighted) == s.highlighted
  {
  }

  lemma ViewRoundTrip(s: Search)
    ensures ViewOf(Serialize(s).view) == s.view
  {
    if s.view == Some(List) {
      assert ViewName(List) == "list" != "cards";
    }
  }

  /** Every normalised search is well-formed, so normalising is idempotent. */
  lemma ValidateIdempotent(raw: RawSearch)
    ensures WellFormed(ValidateSearch(raw))
    ensures ValidateSearch(Serialize(ValidateSearch(raw))) == ValidateSearch(raw)
  {
    ValidateSerialize(ValidateSearch(raw));
  }

  /** The sort the page uses: the selected key, or `newest`. */
  function EffectiveSort(s: Search): SortKey {
    s.sort.GetOr(Newest)
  }

  /** The direction the page uses for a sort key. */
  function EffectiveDir(s: Search, sort: SortKey): (r: SortDir)
    ensures s.dir.Some? ==> r == s.dir.value
    ensures s.dir.None? ==> r == DefaultDir(sort)
  {
    ParseDir(match s.dir case Some(d) => Text(DirName(d)) case None => Missing, sort)
  }

  function Opposite(d: SortDir): SortDir {
    if d == Asc then Desc else Asc
  }

  /** Typing in the filter box: the text is stored as the query when it is
      not blank, and the query is cleared otherwise. */
  function EditQuery(prev: Search, next: string): (r: Search)
    ensures r.q.Some? <==> Trim(next) != []
    ensures r.q.Some? ==> r.q.value == next
    ensures r == prev.(q := r.q)
  {
    prev.(q := if Trim(next) != [] then Some(next) else None)
  }

  /** The query the filter box stores is the one validateSearch reads back
      from the same text, and editing keeps a search well-formed. */
  lemma EditQueryValidates(prev: Search, next: string)
    requires WellFormed(prev)
    ensures EditQuery(prev, next).q == QueryOf(Text(next))
    ensures WellFormed(EditQuery(prev, next))
    ensures ValidateSearch(Serialize(EditQuery(prev, next))) == EditQuery(prev, next)
  {
    var r := EditQuery(prev, next);
    assert r.q == QueryOf(Text(next));
    ValidateSerialize(r);
  }

  /** The Highlighted button: sets the flag when it is off and clears it when on. */
  function ToggleHighlighted(prev: Search): (r: Search)
    ensures r.highlighted != prev.highlighted
    ensures r == prev.(highlighted := r.highlighted)
  {
    prev.(highlighted := !prev.highlighted)
  }

  /** Choosing a sort key stores it, and stores the direction in use for it,
      so the default direction of the new key is written out explicitly. */
  function ChangeSort(prev: Search, value: string): (r: Search)
    ensures r.sort == Some(ParseSort(Text(value)))
    ensures r.dir == Some(EffectiveDir(prev, ParseSort(Text(value))))
    ensures r == prev.(sort := r.sort, dir := r.dir)
  {
    var sort := ParseSort(Text(value));
    prev.(sort := Some(sort), dir := Some(EffectiveDir(prev, sort)))
  }

  /** The direction button stores the opposite of the direction in use. */
  function ToggleDir(prev: Search, sort: SortKey): (r: Search)
    ensures r.dir == Some(Opposite(EffectiveDir(prev, sort)))
    ensures r == prev.(dir := r.dir)
  {
    prev.(dir := Some(if EffectiveDir(prev, sort) == Asc then Desc else Asc))
  }

  /** The view button: `cards` when the view is not `cards`, otherwise unset. */
  function ToggleView(prev: Search): (r: Search)
    ensures r.view == if prev.view == Some(Cards) then None else Some(Cards)
    ensures r == prev.(view := r.view)
  {
    prev.(view := if prev.view == Some(Cards) then None else Some(Cards))
  }

  /** The view the page shows: the selected one, or the list. */
  function EffectiveView(s: Search): View {
    s.view.GetOr(List)
  }

  /** Each press of the direction button flips the direction in use, so two
      presses restore it. */
  lemma ToggleDirFlips(s: Search, sort: SortKey)
    ensures EffectiveDir(ToggleDir(s, sort), sort) != EffectiveDir(s, sort)
    ensures EffectiveDir(ToggleDir(ToggleDir(s, sort), sort), sort) == EffectiveDir(s, sort)
  {
  }

  /** Each press of the view button switches between cards and list. */
  lemma ToggleViewFlips(s: Search)
    ensures EffectiveView(ToggleView(s)) != EffectiveView(s)
    ensures EffectiveView(ToggleView(ToggleView(s))) == EffectiveView(s)
  {
  }

  /** Two presses of the Highlighted button restore the search. */
  lemma ToggleHighlightedInvolution(s: Search)
    ensures ToggleHighlighted(ToggleHighlighted(s)) == s
  {
  }

  /** Changing the sort keeps the direction the user was seeing for the new
      key when one was stored, and otherwise pins the new key's default. */
  lemma ChangeSortKeepsDirection(prev: Search, value: string)
    ensures EffectiveDir(ChangeSort(prev, value), ParseSort(Text(value)))
         == if prev.dir.Some? then prev.dir.value else DefaultDir(ParseSort(Text(value)))
  {
  }
}
