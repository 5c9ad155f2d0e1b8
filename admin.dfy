/**
  The admin panel's list state (app/admin/page.tsx): the name search, pending
  rank edits per entry, and the edit modal with its buffer. The writes to the
  database are returned as values instead of being performed.
*/
module Admin {
  import opened Js
  import opened Lists
  import opened Catalog
  import opened Gallery

  /** The entries listed under the admin search box, in fetched order. */
  function VisibleEntries(animes: seq<Entry>, search: string): (r: seq<Entry>)
    ensures forall e :: e in r <==> e in animes && MatchesSearch(e, search)
    ensures Subseq(r, animes)
    ensures (forall e :: e in animes ==> MatchesSearch(e, search)) ==> r == animes
  {
    Keep(animes, e => MatchesSearch(e, search))
  }

  /** With an empty search box every fetched entry is listed. */
  lemma EmptySearchListsAll(animes: seq<Entry>)
    ensures VisibleEntries(animes, "") == animes
  {
    forall e: Entry ensures MatchesSearch(e, "") {
      IncludesEmpty(ToLower(e.name));
    }
  }

  // ---------------------------------------------------------------------------
  // Ranks

  /** `editRanks[id] ? Number(editRanks[id]) : null`: `None` is a stored `null`. */
  function SavedRank(editRanks: map<string, string>, id: string): (r: Option<Number>)
    ensures r.None? <==> id !in editRanks || editRanks[id] == ""
    ensures r.Some? ==> r.value == ToNumber(editRanks[id])
  {
    var pending := if id in editRanks then Str(editRanks[id]) else Undefined;
    if Truthy(pending) then Some(NumberOf(pending)) else None
  }

  /** A rank typed as the decimal text of an integer is saved as that integer, 0 included. */
  lemma TypedRankSaved(editRanks: map<string, string>, id: string, n: int)
    requires id in editRanks && editRanks[id] == IntToString(n)
    ensures SavedRank(editRanks, id) == Some(Finite(n))
  {
    NumberOfIntToString(n);
  }

  /** The text a stored rank shows in a number input. */
  function RankText(x: Number): (r: string)
    ensures x.Finite? ==> ToNumber(r) == x
  {
    match x
    case Finite(n) => NumberOfIntToString(n); IntToString(n)
    case NaN => "NaN"
  }

  /** `editRanks[anime.id] ?? (anime.featuredRank ?? "")` */
  function RankInputValue(editRanks: map<string, string>, e: Entry): (r: string)
    ensures e.id in editRanks ==> r == editRanks[e.id]
    ensures e.id !in editRanks && e.featuredRank.None? ==> r == ""
    ensures e.id !in editRanks && e.featuredRank.Some? ==> r != ""
  {
    if e.id in editRanks then editRanks[e.id]
    else match e.featuredRank
      case None => ""
      case Some(x) => RankText(x)
  }

  /** Saving the input as shown keeps the shown rank, except that an untouched
      input writes `null` even though it shows the stored rank. */
  lemma SaveRankOfShownValue(editRanks: map<string, string>, e: Entry)
    ensures e.id in editRanks && editRanks[e.id] != "" ==>
      SavedRank(editRanks, e.id) == Some(ToNumber(RankInputValue(editRanks, e)))
    ensures e.id !in editRanks ==> SavedRank(editRanks, e.id) == None
    ensures e.id !in editRanks && e.featuredRank.Some? && e.featuredRank.value.Finite? ==>
      ToNumber(RankInputValue(editRanks, e)) == e.featuredRank.value
  {
  }

  // ---------------------------------------------------------------------------
  // The edit buffer

  datatype Field = Name | Language | Season | TotalEpisodes | FeaturedRank

  /** `editAnime`, the fields the modal edits; `Undefined` is a missing property.
      Unlike the add form's buffer, which only ever holds typed text, this one
      starts as a copy of a stored document, so a field may also be `null`,
      a number or missing. */
  datatype Draft = Draft(name: Value, language: Value, season: Value, totalEpisodes: Value, featuredRank: Value)
  {
    function Get(f: Field): Value {
      match f
      case Name => name
      case Language => language
      case Season => season
      case TotalEpisodes => totalEpisodes
      case FeaturedRank => featuredRank
    }

    /** `{ ...prev, [field]: value }` */
    function Set(f: Field, v: Value): (d: Draft)
      ensures d.Get(f) == v
      ensures forall g :: g != f ==> d.Get(g) == Get(g)
    {
      match f
      case Name => this.(name := v)
      case Language => this.(language := v)
      case Season => this.(season := v)
      case TotalEpisodes => this.(totalEpisodes := v)
      case FeaturedRank => this.(featuredRank := v)
    }
  }

  /** `{}` */
  const EmptyDraft := Draft(Undefined, Undefined, Undefined, Undefined, Undefined)

  function OrNull(v: Option<string>): Value {
    match v
    case None => Null
    case Some(s) => Str(s)
  }

  /** `{ ...anime }`, restricted to the edited fields. */
  function DraftOf(e: Entry): (d: Draft)
    ensures d.name == Str(e.name)
  {
    Draft(Str(e.name), OrNull(e.language), OrNull(e.season),
          match e.totalEpisodes case None => Null case Some(n) => Num(Finite(n)),
          match e.featuredRank case None => Null case Some(x) => Num(x))
  }

  /** The fields `saveAnimeEdit` writes. */
  datatype Payload = Payload(
    name: Value,
    language: Value,
    season: Value,
    totalEpisodes: Option<Number>,
    featuredRank: Option<Number>)

  /** `v || null` */
  function OrNullValue(v: Value): (r: Value)
    ensures Truthy(v) ==> r == v
    ensures !Truthy(v) ==> r == Null
  {
    if Truthy(v) then v else Null
  }

  /** `v ? Number(v) : null`; `None` is `null`. */
  function NumberOrNull(v: Value): (r: Option<Number>)
    ensures r.None? <==> !Truthy(v)
  {
    if Truthy(v) then Some(NumberOf(v)) else None
  }

  /** The update `saveAnimeEdit` sends for a buffer. */
  function EditPayload(d: Draft): (p: Payload)
    ensures p.name == d.name
    ensures p.language == (if Truthy(d.language) then d.language else Null)
    ensures p.season == (if Truthy(d.season) then d.season else Null)
    ensures p.totalEpisodes.None? <==> !Truthy(d.totalEpisodes)
    ensures p.totalEpisodes.Some? ==> p.totalEpisodes.value == NumberOf(d.totalEpisodes)
    ensures p.featuredRank.None? <==> !Truthy(d.featuredRank)
    ensures p.featuredRank.Some? ==> p.featuredRank.value == NumberOf(d.featuredRank)
  {
    Payload(d.name, OrNullValue(d.language), OrNullValue(d.season),
            NumberOrNull(d.totalEpisodes), NumberOrNull(d.featuredRank))
  }

  /** Saving an untouched buffer writes the entry back, except that an empty
      language or season, a count of 0 episodes and a rank of 0 or NaN become `null`. */
  lemma UntouchedEditPayload(e: Entry)
    ensures var p := EditPayload(DraftOf(e));
            && p.name == Str(e.name)
            && p.language == (if e.language == Some("") then Null else OrNull(e.language))
            && p.season == (if e.season == Some("") then Null else OrNull(e.season))
            && p.totalEpisodes == (if e.totalEpisodes.None? || e.totalEpisodes == Some(0) then None
                                   else Some(Finite(e.totalEpisodes.value)))
            && p.featuredRank == (if e.featuredRank.None? || e.featuredRank == Some(Finite(0))
                                     || e.featuredRank == Some(NaN) then None
                                  else e.featuredRank)
  {
    var d := DraftOf(e);
    if e.featuredRank.Some? {
      assert d.featuredRank == Num(e.featuredRank.value);
    }
  }

  /** A number typed into the buffer is written as that number, 0 included. */
  lemma TypedNumberPayload(d: Draft, n: int)
    ensures EditPayload(d.Set(TotalEpisodes, Str(IntToString(n)))).totalEpisodes == Some(Finite(n))
    ensures EditPayload(d.Set(FeaturedRank, Str(IntToString(n)))).featuredRank == Some(Finite(n))
  {
    NumberOfIntToString(n);
    assert NumberOrNull(Str(IntToString(n))) == Some(Finite(n));
  }

  /** Clearing a text field of the buffer writes `null`. */
  lemma ClearedTextPayload(d: Draft)
    ensures EditPayload(d.Set(Language, Str(""))).language == Null
    ensures EditPayload(d.Set(Season, Str(""))).season == Null
  {
  }

  /** The row id and fields of a `saveRank` write. */
  datatype RankUpdate = RankUpdate(id: string, featuredRank: Option<Number>)

  /** The document id and fields of a `saveAnimeEdit` write. */
  datatype EditUpdate = EditUpdate(id: string, payload: Payload)

  /** The admin page's state, apart from loading and busy flags. */
  class AdminPanel {
    var animes: seq<Entry>
    var editRanks: map<string, string>
    var selected: Option<Entry>
    var draft: Draft

    /** The buffer is empty whenever no entry is selected. */
    ghost predicate Valid()
      reads this
    {
      selected.None? ==> draft == EmptyDraft
    }

    constructor()
      ensures Valid()
      ensures animes == [] && editRanks == map[] && selected == None && draft == EmptyDraft
    {
      animes := [];
      editRanks := map[];
      selected := None;
      draft := EmptyDraft;
    }

    /** The end of `fetchAnimes`: the fetched list replaces the old one and
        the modal is reset; pending rank edits stay. */
    method FetchCompleted(snapshot: seq<Entry>)
      modifies this
      ensures Valid()
      ensures animes == snapshot && selected == None && draft == EmptyDraft
      ensures editRanks == old(editRanks)
    {
      animes := snapshot;
      selected := None;
      draft := EmptyDraft;
    }

    /** `handleRankChange`: records the pending text for one row only. */
    method HandleRankChange(id: string, value: string)
      modifies this
      ensures Valid() == old(Valid())
      ensures editRanks == old(editRanks)[id := value]
      ensures forall other :: other != id ==>
        (other in editRanks <==> other in old(editRanks)) &&
        (other in editRanks ==> editRanks[other] == old(editRanks)[other])
      ensures animes == old(animes) && selected == old(selected) && draft == old(draft)
    {
      editRanks := editRanks[id := value];
    }

    /** `saveRank`: the write it sends. The pending text is kept. */
    method SaveRank(id: string) returns (update: RankUpdate)
      ensures update.id == id
      ensures update.featuredRank.None? <==> id !in editRanks || editRanks[id] == ""
      ensures update.featuredRank.Some? ==> update.featuredRank.value == ToNumber(editRanks[id])
    {
      update := RankUpdate(id, SavedRank(editRanks, id));
    }

    /** `openEditModal`: selects the entry and copies it into the buffer. */
    method OpenEditModal(e: Entry)
      modifies this
      ensures Valid()
      ensures selected == Some(e) && draft == DraftOf(e)
      ensures animes == old(animes) && editRanks == old(editRanks)
    {
      selected := Some(e);
      draft := DraftOf(e);
    }

    /** `closeEditModal` */
    method CloseEditModal()
      modifies this
      ensures Valid()
      ensures selected == None && draft == EmptyDraft
      ensures animes == old(animes) && editRanks == old(editRanks)
    {
      selected := None;
      draft := EmptyDraft;
    }

    /** `handleEditChange`: the modal's inputs, shown only while an entry is
        selected, replace one field of the buffer with the typed text. */
    method HandleEditChange(field: Field, value: string)
      requires selected.Some?
      modifies this
      ensures Valid()
      ensures draft.Get(field) == Str(value)
      ensures forall g :: g != field ==> draft.Get(g) == old(draft).Get(g)
      ensures selected == old(selected) && animes == old(animes) && editRanks == old(editRanks)
    {
      draft := draft.Set(field, Str(value));
    }

    /** `saveAnimeEdit`: nothing without a selection; otherwise the write for
        the selected document. The modal closes once the write resolves; a
        rejected write leaves the selection and the buffer as they were.
        `resolved` is whether `updateDoc` resolved. */
    method SaveAnimeEdit(resolved: bool) returns (update: Option<EditUpdate>)
      requires Valid()
      modifies this
      ensures Valid()
      ensures old(selected).None? ==> update.None?
      ensures old(selected).Some? ==>
        update == Some(EditUpdate(old(selected).value.id, EditPayload(old(draft))))
      ensures old(selected).Some? && resolved ==> selected == None && draft == EmptyDraft
      ensures old(selected).None? || !resolved ==> selected == old(selected) && draft == old(draft)
      ensures animes == old(animes) && editRanks == old(editRanks)
    {
      if selected.None? {
        return None;
      }
      update := Some(EditUpdate(selected.value.id, EditPayload(draft)));
      if resolved {
        CloseEditModal();
      }
    }
  }
}
