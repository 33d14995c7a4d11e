/**
 * The customize-channel dialog: its staged edits, how they are read off
 * the channel when the dialog is mounted, the checkbox, drag-and-drop, save and cancel
 * handlers, and the avatar and banner references that save builds.
 *
 * `encode` stands for `encodeURIComponent`.
 */
module CustomizeChannel {
  import opened Wrappers
  import opened Text
  import opened Sections
  import opened Game

  /** The marker the dialog splits a stored reference on. */
  const QueryMarker: string := "query="

  /** The avatar reference without a query. */
  const AvatarTemplate: string := "/placeholder.svg?height=100&width=100"

  /** The banner reference without a query. */
  const BannerTemplate: string := "/placeholder.svg?height=200&width=1200"

  /**
   * An image reference: the bare template for an empty query, else the
   * template, `&query=` and the encoded query. It always starts with the
   * template and is the bare template exactly when the query is empty.
   */
  function Reference(template: string, query: string, encode: string -> string): (r: string)
    ensures |template| <= |r| && r[..|template|] == template
    ensures r == template <==> query == ""
  {
    if query != "" then template + "&" + QueryMarker + encode(query) else template
  }

  /**
   * `reference.split("query=")[1] || ""`: the query text a freshly mounted
   * dialog starts from. It is non-empty only when the reference holds a
   * `query=`, and it never holds one itself.
   */
  function OpeningQuery(reference: string): (q: string)
    ensures q != "" ==> IndexOf(reference, QueryMarker, 0).Some?
    ensures IndexOf(q, QueryMarker, 0).None?
  {
    var parts := Split(reference, QueryMarker);
    SplitFirstPiece(reference, QueryMarker);
    SplitPiecesFree(reference, QueryMarker);
    IndexOfNone("", QueryMarker, 0);
    if |parts| > 1 && parts[1] != "" then (IndexOfNone(parts[1], QueryMarker, 0); parts[1]) else ""
  }

  /**
   * The opening query is the text between the first `query=` and the
   * next one (or the end), and "" when there is no `query=`.
   */
  lemma OpeningQueryBetweenMarkers(reference: string)
    ensures IndexOf(reference, QueryMarker, 0).None? ==> OpeningQuery(reference) == ""
    ensures IndexOf(reference, QueryMarker, 0).Some? ==>
      var start := IndexOf(reference, QueryMarker, 0).value + |QueryMarker|;
      OpeningQuery(reference) == match IndexOf(reference, QueryMarker, start)
        case None => reference[start..]
        case Some(j) => reference[start..j]
  {
    match IndexOf(reference, QueryMarker, 0)
    case None =>
    case Some(i) =>
      match IndexOf(reference, QueryMarker, i + |QueryMarker|)
      case None => SplitSecondPieceToEnd(reference, QueryMarker, i);
      case Some(j) => SplitSecondPieceToNext(reference, QueryMarker, i, j);
  }

  /** A template with no letter `q` holds no `query=`. */
  lemma TemplateHasNoMarker(template: string)
    requires 'q' !in template
    ensures IndexOf(template, QueryMarker, 0).None?
  {
    forall j: nat ensures !OccursAt(template, QueryMarker, j) {
      if j < |template| {
        assert template[j] in template;
      }
      MismatchAt(template, QueryMarker, j, 0);
    }
    IndexOfNone(template, QueryMarker, 0);
  }

  /** In a reference built from a template without `q`, the first `query=` is the one the template is followed by. */
  lemma MarkerFollowsTemplate(template: string, e: string)
    requires 'q' !in template
    ensures IndexOf(template + "&" + QueryMarker + e, QueryMarker, 0) == Some(|template| + 1)
  {
    var s := template + "&" + QueryMarker + e;
    var n := |template| + 1;
    assert s[n..n + |QueryMarker|] == QueryMarker;
    forall j | 0 <= j < n ensures !OccursAt(s, QueryMarker, j) {
      if j < |template| {
        assert s[j] == template[j] && template[j] in template;
      }
      MismatchAt(s, QueryMarker, j, 0);
    }
    IndexOfFirst(s, QueryMarker, 0, n);
  }

  /** After the marker, an encoded query without `=` holds no further `query=`. */
  lemma NoMarkerInEncoded(template: string, e: string)
    requires '=' !in e
    ensures IndexOf(template + "&" + QueryMarker + e, QueryMarker, |template| + 1 + |QueryMarker|).None?
  {
    var s := template + "&" + QueryMarker + e;
    var start := |template| + 1 + |QueryMarker|;
    forall j: nat | start <= j ensures !OccursAt(s, QueryMarker, j) {
      if j + 5 < |s| {
        assert s[j + 5] == e[j + 5 - start] && e[j + 5 - start] in e;
      }
      MismatchAt(s, QueryMarker, j, 5);
    }
    IndexOfNone(s, QueryMarker, start);
  }

  /**
   * Reading back a reference built from a query gives the encoded query,
   * and a bare template gives "", provided the template has no `q` and the
   * encoder emits no `=` for the query it encodes.
   */
  lemma ReferenceReopens(template: string, query: string, encode: string -> string)
    requires 'q' !in template && (query != "" ==> '=' !in encode(query))
    ensures OpeningQuery(Reference(template, query, encode)) == if query == "" then "" else encode(query)
  {
    if query == "" {
      TemplateHasNoMarker(template);
      OpeningQueryBetweenMarkers(template);
    } else {
      var e := encode(query);
      var s := Reference(template, query, encode);
      MarkerFollowsTemplate(template, e);
      NoMarkerInEncoded(template, e);
      OpeningQueryBetweenMarkers(s);
      assert s[|template| + 1 + |QueryMarker|..] == e;
    }
  }

  /** Neither image template holds a `q`. */
  lemma TemplatesHaveNoQ()
    ensures 'q' !in AvatarTemplate && 'q' !in BannerTemplate
  {
  }

  /** The dialog's staged fields: the `useState` cells. */
  datatype StagedEdits = StagedEdits(
    sections: seq<string>,
    profileName: string,
    profileBio: string,
    avatarQuery: string,
    bannerQuery: string)

  /**
   * The staged fields when the dialog is mounted on `channel`: the
   * channel's layout, name and bio, and query texts that never hold
   * `query=`; a reference without `query=` starts with an empty query.
   */
  function InitialEdits<R>(channel: Channel<R>): (e: StagedEdits)
    ensures e.sections == channel.homepageLayout && e.profileName == channel.name && e.profileBio == channel.bio
    ensures IndexOf(e.avatarQuery, QueryMarker, 0).None? && IndexOf(e.bannerQuery, QueryMarker, 0).None?
    ensures IndexOf(channel.avatar, QueryMarker, 0).None? ==> e.avatarQuery == ""
    ensures IndexOf(channel.banner, QueryMarker, 0).None? ==> e.bannerQuery == ""
  {
    StagedEdits(channel.homepageLayout, channel.name, channel.bio,
                OpeningQuery(channel.avatar), OpeningQuery(channel.banner))
  }

  /**
   * The updater `handleSave` passes to `setGameState`: it overwrites the
   * channel's name, bio, avatar, banner and homepage layout and keeps
   * every other field of the channel and of the game state.
   */
  function SaveUpdate<R, O>(prev: GameState<R, O>, edits: StagedEdits, encode: string -> string): (next: GameState<R, O>)
    ensures next.rest == prev.rest && next.channel.rest == prev.channel.rest
    ensures next.channel.name == edits.profileName && next.channel.bio == edits.profileBio
    ensures next.channel.homepageLayout == edits.sections
    ensures next.channel.avatar == Reference(AvatarTemplate, edits.avatarQuery, encode)
    ensures next.channel.banner == Reference(BannerTemplate, edits.bannerQuery, encode)
  {
    prev.(channel := prev.channel.(
      name := edits.profileName,
      bio := edits.profileBio,
      avatar := Reference(AvatarTemplate, edits.avatarQuery, encode),
      banner := Reference(BannerTemplate, edits.bannerQuery, encode),
      homepageLayout := edits.sections))
  }

  /** Saving the same edits twice is saving them once. */
  lemma SaveIdempotent<R, O>(prev: GameState<R, O>, edits: StagedEdits, encode: string -> string)
    ensures SaveUpdate(SaveUpdate(prev, edits, encode), edits, encode) == SaveUpdate(prev, edits, encode)
  {
  }

  /**
   * A dialog freshly mounted on a saved channel stages the saved name, bio
   * and layout again, and for each image the encoded query ("" for none).
   */
  lemma ReopenAfterSave<R, O>(prev: GameState<R, O>, edits: StagedEdits, encode: string -> string)
    requires edits.avatarQuery != "" ==> '=' !in encode(edits.avatarQuery)
    requires edits.bannerQuery != "" ==> '=' !in encode(edits.bannerQuery)
    ensures InitialEdits(SaveUpdate(prev, edits, encode).channel) == edits.(
      avatarQuery := if edits.avatarQuery == "" then "" else encode(edits.avatarQuery),
      bannerQuery := if edits.bannerQuery == "" then "" else encode(edits.bannerQuery))
  {
    TemplatesHaveNoQ();
    ReferenceReopens(AvatarTemplate, edits.avatarQuery, encode);
    ReferenceReopens(BannerTemplate, edits.bannerQuery, encode);
  }

  /**
   * Saving, then mounting a fresh dialog on the saved channel and saving
   * again without edits, encodes each non-empty query a second time: the
   * stored references are built from the encoded queries.
   */
  lemma SaveAgainEncodesTwice<R, O>(prev: GameState<R, O>, edits: StagedEdits, encode: string -> string)
    requires edits.avatarQuery != "" ==> '=' !in encode(edits.avatarQuery)
    requires edits.bannerQuery != "" ==> '=' !in encode(edits.bannerQuery)
    ensures var saved := SaveUpdate(prev, edits, encode);
      var again := SaveUpdate(saved, InitialEdits(saved.channel), encode);
      again.channel.avatar == (if edits.avatarQuery == "" then AvatarTemplate
                               else Reference(AvatarTemplate, encode(edits.avatarQuery), encode))
      && again.channel.banner == (if edits.bannerQuery == "" then BannerTemplate
                                  else Reference(BannerTemplate, encode(edits.bannerQuery), encode))
      && again.channel.homepageLayout == edits.sections
      && again.channel.name == edits.profileName && again.channel.bio == edits.profileBio
  {
    ReopenAfterSave(prev, edits, encode);
  }

  /**
   * Unchecking "playlists" on a channel laid out as latest, popular,
   * playlists and saving with a new bio stores that bio and the two other
   * sections in their old order.
   */
  lemma UncheckPlaylistsThenSave<R, O>(prev: GameState<R, O>, encode: string -> string)
    requires prev.channel.homepageLayout == ["latestVideos", "popularVideos", "playlists"]
    ensures var edits := InitialEdits(prev.channel).(
        profileBio := "I rap on Tuesdays",
        sections := Toggle(prev.channel.homepageLayout, "playlists", false));
      var next := SaveUpdate(prev, edits, encode);
      next.channel.bio == "I rap on Tuesdays"
      && next.channel.homepageLayout == ["latestVideos", "popularVideos"]
      && next.channel.name == prev.channel.name && next.rest == prev.rest
  {
    var s, p := prev.channel.homepageLayout, "playlists";
    assert s[1..][1..][1..] == [];
    assert Without(s[1..][1..], p) == [];
    assert "popularVideos"[1] != p[1];
    assert Without(s[1..], p) == ["popularVideos"];
    assert "latestVideos"[0] != p[0];
    assert Without(s, p) == ["latestVideos", "popularVideos"];
  }

  /** A default channel reference reads back as an empty query. */
  lemma DefaultReferencesReopenEmpty()
    ensures OpeningQuery(AvatarTemplate) == "" && OpeningQuery(BannerTemplate) == ""
  {
    TemplatesHaveNoQ();
    TemplateHasNoMarker(AvatarTemplate);
    TemplateHasNoMarker(BannerTemplate);
    OpeningQueryBetweenMarkers(AvatarTemplate);
    OpeningQueryBetweenMarkers(BannerTemplate);
  }

  /** The staged section list has no repeated id and only catalogue ids. */
  ghost predicate WellFormedLayout(s: seq<string>) {
    NoDuplicates(s) && AllKnown(s)
  }

  /** One open customize dialog: its staged edits, and whether it has asked its host to close it. */
  class CustomizeChannelDialog<R> {
    var selectedSections: seq<string>
    var profileName: string
    var profileBio: string
    var avatarQuery: string
    var bannerQuery: string
    var closeRequested: bool

    function Edits(): StagedEdits
      reads this
    {
      StagedEdits(selectedSections, profileName, profileBio, avatarQuery, bannerQuery)
    }

    /** Mounting the dialog on `channel` seeds each cell from it (the `useState` initializers). */
    constructor (channel: Channel<R>)
      ensures Edits() == InitialEdits(channel) && !closeRequested
    {
      selectedSections := channel.homepageLayout;
      profileName := channel.name;
      profileBio := channel.bio;
      avatarQuery := OpeningQuery(channel.avatar);
      bannerQuery := OpeningQuery(channel.banner);
      closeRequested := false;
    }

    /** `handleCheckboxChange`. */
    method HandleCheckboxChange(sectionId: string, checked: bool)
      modifies this
      ensures Edits() == old(Edits()).(sections := Toggle(old(selectedSections), sectionId, checked))
      ensures closeRequested == old(closeRequested)
    {
      selectedSections := Toggle(selectedSections, sectionId, checked);
    }

    /**
     * A click on the checkbox of a catalogue section: the box shows
     * whether the id is staged and reports the opposite, so the id is
     * appended only when absent, and a well-formed list stays well-formed.
     */
    method ClickCheckbox(section: Section)
      requires section in AvailableSections
      modifies this
      ensures Edits() == old(Edits()).(sections :=
        Toggle(old(selectedSections), section.id, section.id !in old(selectedSections)))
      ensures old(WellFormedLayout(selectedSections)) ==> WellFormedLayout(selectedSections)
      ensures closeRequested == old(closeRequested)
    {
      var checked := section.id in selectedSections;
      ghost var prev := selectedSections;
      HandleCheckboxChange(section.id, !checked);
      if WellFormedLayout(prev) {
        ToggleKeepsNoDuplicates(prev, section.id, !checked);
        var k :| 0 <= k < |AvailableSections| && AvailableSections[k] == section;
        ToggleKeepsKnown(prev, section.id, !checked);
      }
    }

    /** `onDragEnd`: a drop outside the list changes nothing, any other drop moves one staged id. */
    method DragEnd(result: DragResult)
      requires InRange(selectedSections, result)
      modifies this
      ensures result.destination.None? ==> Edits() == old(Edits())
      ensures result.destination.Some? ==> Edits() == old(Edits()).(sections :=
        Moved(old(selectedSections), result.source, result.destination.value))
      ensures old(WellFormedLayout(selectedSections)) ==> WellFormedLayout(selectedSections)
      ensures closeRequested == old(closeRequested)
    {
      var items := OnDragEnd(selectedSections, result);
      if result.destination.Some? {
        MovedKeepsInvariants(selectedSections, result.source, result.destination.value);
      }
      selectedSections := items;
    }

    /** Typing in the name field. */
    method EditProfileName(value: string)
      modifies this
      ensures Edits() == old(Edits()).(profileName := value) && closeRequested == old(closeRequested)
    {
      profileName := value;
    }

    /** Typing in the bio field. */
    method EditProfileBio(value: string)
      modifies this
      ensures Edits() == old(Edits()).(profileBio := value) && closeRequested == old(closeRequested)
    {
      profileBio := value;
    }

    /** Typing in the avatar query field. */
    method EditAvatarQuery(value: string)
      modifies this
      ensures Edits() == old(Edits()).(avatarQuery := value) && closeRequested == old(closeRequested)
    {
      avatarQuery := value;
    }

    /** Typing in the banner query field. */
    method EditBannerQuery(value: string)
      modifies this
      ensures Edits() == old(Edits()).(bannerQuery := value) && closeRequested == old(closeRequested)
    {
      bannerQuery := value;
    }

    /** `handleSave`: one write through the store's updater, then a request to close. */
    method Save<O>(store: GameStore<R, O>, encode: string -> string)
      modifies this, store
      ensures store.state == SaveUpdate(old(store.state), old(Edits()), encode)
      ensures Edits() == old(Edits()) && closeRequested
    {
      var edits := Edits();
      store.SetGameState(prev => SaveUpdate(prev, edits, encode));
      closeRequested := true;
    }

    /** The Cancel button: it only asks to close, and the store is outside what it may change. */
    method Cancel<O>(store: GameStore<R, O>)
      modifies this
      ensures store.state == old(store.state)
      ensures Edits() == old(Edits()) && closeRequested
    {
      closeRequested := true;
    }
  }
}
