/** The window's view state and how clicks change it (`button_down`,
    `select_album`, `select_track`, and the state side of `play_track`).

    The state is `@in_album_selection`, `@selected_album`, `@selected_track`,
    `@now_playing` and the song last loaded. The album list is fixed when the
    window is built and never changes afterwards. */
module Player {
  import opened Wrappers
  import opened Catalog
  import opened Layout
  import opened Paths

  /** The mouse button of a press; only the left button does anything. */
  datatype Button = MsLeft | OtherButton

  datatype Click = Click(button: Button, x: int, y: int)

  /** The view and playback fields of the window; `song` is the location of
      the last song loaded. */
  datatype ViewState = ViewState(
    inAlbumSelection: bool,
    selectedAlbum: Option<nat>,
    selectedTrack: Option<nat>,
    nowPlaying: Option<string>,
    song: Option<string>)

  /** The fields as the window's constructor sets them. */
  function InitialState(): ViewState {
    ViewState(true, None, None, None, None)
  }

  /** Some track of the catalog is stored at `location`. */
  predicate IsTrackLocation(albums: seq<Album>, location: string) {
    exists a, t :: 0 <= a < |albums| && 0 <= t < |albums[a].tracks| && albums[a].tracks[t].location == location
  }

  /** The invariant every click keeps: album mode exactly when no album is
      selected, and then no track either; in track mode a valid album and a
      track index that is 0 or valid for it; the label is the basename of the
      last song loaded, which is one of the catalog's tracks. */
  predicate Consistent(albums: seq<Album>, s: ViewState) {
    && (s.inAlbumSelection <==> s.selectedAlbum.None?)
    && (s.inAlbumSelection ==> s.selectedTrack.None?)
    && (!s.inAlbumSelection ==>
          && s.selectedAlbum.value < |albums|
          && s.selectedTrack.Some?
          && (s.selectedTrack.value == 0 || s.selectedTrack.value < |albums[s.selectedAlbum.value].tracks|))
    && (s.nowPlaying.Some? <==> s.song.Some?)
    && (s.song.Some? ==> s.nowPlaying.value == Basename(s.song.value) && IsTrackLocation(albums, s.song.value))
  }

  lemma InitialStateConsistent(albums: seq<Album>)
    ensures Consistent(albums, InitialState())
  {
  }

  /** `play_track`: the song at `location` is loaded and the label set to its basename. */
  function AfterPlayTrack(s: ViewState, location: string): ViewState {
    s.(song := Some(location), nowPlaying := Some(Basename(location)))
  }

  /** Playing a track of the catalog keeps the invariant, whatever was playing
      before; the label becomes the basename of the track's location. */
  lemma PlayTrackKeepsInvariant(albums: seq<Album>, s: ViewState, location: string)
    requires Consistent(albums, s) && IsTrackLocation(albums, location)
    ensures Consistent(albums, AfterPlayTrack(s, location))
    ensures AfterPlayTrack(s, location).nowPlaying == Some(Basename(location))
    ensures AfterPlayTrack(s, location).song == Some(location)
  {
  }

  /** `select_album`: the first album whose box holds the click is selected,
      with track 0, and the view switches to its track list; a click in no box
      changes nothing. */
  function AfterSelectAlbum(albums: seq<Album>, s: ViewState, x: int, y: int): (r: ViewState)
    requires Consistent(albums, s)
    ensures Consistent(albums, r)
    ensures r.nowPlaying == s.nowPlaying && r.song == s.song
  {
    match AlbumHitFrom(albums, 0, x, y)
    case None => s
    case Some(i) => s.(inAlbumSelection := false, selectedAlbum := Some(i), selectedTrack := Some(0))
  }

  /** `select_track`: in the selected album's list, the Back rectangle returns
      to the album grid and a track row plays that track. */
  function AfterSelectTrack(albums: seq<Album>, s: ViewState, x: int, y: int): (r: ViewState)
    requires Consistent(albums, s) && !s.inAlbumSelection
    ensures Consistent(albums, r)
  {
    var album := s.selectedAlbum.value;
    var tracks := albums[album].tracks;
    match TrackClickAt(|tracks|, x, y)
    case Stay => s
    case Back => s.(inAlbumSelection := true, selectedAlbum := None, selectedTrack := None)
    case Play(i) =>
      var location := tracks[i].location;
      assert albums[album].tracks[i].location == location;
      AfterPlayTrack(s.(selectedTrack := Some(i)), location)
  }

  /** `button_down`: a left click goes to the album grid or the track list,
      whichever is shown; any other button changes nothing. */
  function AfterButtonDown(albums: seq<Album>, s: ViewState, click: Click): (r: ViewState)
    requires Consistent(albums, s)
    ensures Consistent(albums, r)
    ensures click.button != MsLeft ==> r == s
  {
    if click.button != MsLeft then s
    else if s.inAlbumSelection then AfterSelectAlbum(albums, s, click.x, click.y)
    else AfterSelectTrack(albums, s, click.x, click.y)
  }

  /** The state after a sequence of clicks. */
  function AfterClicks(albums: seq<Album>, s: ViewState, clicks: seq<Click>): (r: ViewState)
    requires Consistent(albums, s)
    ensures Consistent(albums, r)
    decreases |clicks|
  {
    if clicks == [] then s
    else AfterClicks(albums, AfterButtonDown(albums, s, clicks[0]), clicks[1..])
  }

  /** Every state reachable from the start by clicking keeps the invariant. */
  lemma ReachableStatesConsistent(albums: seq<Album>, clicks: seq<Click>)
    ensures Consistent(albums, AfterClicks(albums, InitialState(), clicks))
  {
  }

  /** A click in album i's box, with no earlier album's box holding it, opens
      album i at track 0 and leaves the label alone. */
  lemma AlbumClickOpensAlbum(albums: seq<Album>, s: ViewState, i: nat, x: int, y: int)
    requires Consistent(albums, s) && s.inAlbumSelection
    requires i < |albums| && InAlbumBox(albums, i, x, y)
    requires forall j :: 0 <= j < i ==> !InAlbumBox(albums, j, x, y)
    ensures AfterButtonDown(albums, s, Click(MsLeft, x, y))
         == s.(inAlbumSelection := false, selectedAlbum := Some(i), selectedTrack := Some(0))
  {
    var r := AlbumHitFrom(albums, 0, x, y);
    assert r.Some?;
    assert r.value <= i;
  }

  /** A click in album mode that lies in no album's box changes nothing. */
  lemma AlbumMissChangesNothing(albums: seq<Album>, s: ViewState, x: int, y: int)
    requires Consistent(albums, s) && s.inAlbumSelection
    requires forall j :: 0 <= j < |albums| ==> !InAlbumBox(albums, j, x, y)
    ensures AfterButtonDown(albums, s, Click(MsLeft, x, y)) == s
  {
  }

  /** In the list of an album with tracks, the Back rectangle returns to the
      album grid and clears both selections, whatever row also holds the click. */
  lemma BackReturnsToAlbums(albums: seq<Album>, s: ViewState, x: int, y: int)
    requires Consistent(albums, s) && !s.inAlbumSelection
    requires |albums[s.selectedAlbum.value].tracks| > 0 && InBackButton(x, y)
    ensures var r := AfterButtonDown(albums, s, Click(MsLeft, x, y));
            r.inAlbumSelection && r.selectedAlbum == None && r.selectedTrack == None
            && r.nowPlaying == s.nowPlaying && r.song == s.song
  {
  }

  /** The list of an album without tracks ignores every click. */
  lemma EmptyAlbumIgnoresClicks(albums: seq<Album>, s: ViewState, click: Click)
    requires Consistent(albums, s) && !s.inAlbumSelection
    requires |albums[s.selectedAlbum.value].tracks| == 0
    ensures AfterButtonDown(albums, s, click) == s
  {
  }

  /** The first row holding a click outside the Back rectangle plays its track:
      the view stays in the list, the row is selected, and the label becomes
      the basename of the track's location. */
  lemma TrackRowPlays(albums: seq<Album>, s: ViewState, i: nat, x: int, y: int)
    requires Consistent(albums, s) && !s.inAlbumSelection
    requires i < |albums[s.selectedAlbum.value].tracks| && InTrackRow(i, x, y) && !InBackButton(x, y)
    requires forall k :: 0 <= k < i ==> !InTrackRow(k, x, y)
    ensures var location := albums[s.selectedAlbum.value].tracks[i].location;
            AfterButtonDown(albums, s, Click(MsLeft, x, y))
            == s.(selectedTrack := Some(i), song := Some(location), nowPlaying := Some(Basename(location)))
  {
    var n := |albums[s.selectedAlbum.value].tracks|;
    var r := TrackClickAt(n, x, y);
    assert !r.Stay? by {
      assert InTrackRow(i, x, y);
    }
    assert r == Play(i) by {
      assert r.Play?;
      assert !(r.index < i);
      assert !(r.index > i);
    }
    assert AfterButtonDown(albums, s, Click(MsLeft, x, y)) == AfterSelectTrack(albums, s, x, y);
  }

  /** The track list is left only through the Back rectangle: the branch for a
      row index equal to the track count never runs. */
  lemma OnlyBackLeavesTrackList(albums: seq<Album>, s: ViewState, click: Click)
    requires Consistent(albums, s) && !s.inAlbumSelection
    requires AfterButtonDown(albums, s, click).inAlbumSelection
    ensures click.button == MsLeft && InBackButton(click.x, click.y)
    ensures |albums[s.selectedAlbum.value].tracks| > 0
  {
  }

  // ---------------------------------------------------------------------------
  // The window object, as the Ruby code updates it

  class MusicPlayer {
    const albums: seq<Album>
    var inAlbumSelection: bool
    var selectedAlbum: Option<nat>
    var selectedTrack: Option<nat>
    var nowPlaying: Option<string>
    /** Location of the song last loaded; the audio itself is not modelled. */
    ghost var song: Option<string>

    ghost function State(): ViewState
      reads this
    {
      ViewState(inAlbumSelection, selectedAlbum, selectedTrack, nowPlaying, song)
    }

    ghost predicate Valid()
      reads this
    {
      Consistent(albums, State())
    }

    /** The state fields as `initialize` sets them, over the albums `read_albums` loaded. */
    constructor (albums: seq<Album>)
      ensures this.albums == albums
      ensures State() == InitialState() && Valid()
    {
      this.albums := albums;
      selectedAlbum := None;
      selectedTrack := None;
      song := None;
      inAlbumSelection := true;
      nowPlaying := None;
    }

    method ButtonDown(button: Button, mouseX: int, mouseY: int)
      requires Valid()
      modifies this
      ensures Valid()
      ensures State() == AfterButtonDown(albums, old(State()), Click(button, mouseX, mouseY))
    {
      match button
      case MsLeft =>
        if inAlbumSelection {
          SelectAlbum(mouseX, mouseY);
        } else {
          SelectTrack(mouseX, mouseY);
        }
      case OtherButton =>
    }

    method SelectAlbum(mouseX: int, mouseY: int)
      requires Valid() && inAlbumSelection
      modifies this
      ensures Valid()
      ensures State() == AfterSelectAlbum(albums, old(State()), mouseX, mouseY)
    {
      var index := 0;
      while index < |albums|
        invariant 0 <= index <= |albums|
        invariant AlbumHitFrom(albums, 0, mouseX, mouseY) == AlbumHitFrom(albums, index, mouseX, mouseY)
        invariant unchanged(this)
      {
        var album := albums[index];
        var row := index / 2;
        var col := index % 2;
        var x := 100 + col * 200;
        var y := 50 + row * 250;
        if mouseX >= x && mouseX <= x + album.artwork.width && mouseY >= y && mouseY <= y + album.artwork.height {
          selectedAlbum := Some(index);
          selectedTrack := Some(0);
          inAlbumSelection := false;
          break;
        }
        index := index + 1;
      }
    }

    method SelectTrack(mouseX: int, mouseY: int)
      requires Valid() && !inAlbumSelection
      modifies this
      ensures Valid()
      ensures State() == AfterSelectTrack(albums, old(State()), mouseX, mouseY)
    {
      var album := albums[selectedAlbum.value];
      var index := 0;
      while index < |album.tracks|
        invariant 0 <= index <= |album.tracks|
        invariant TrackClickFrom(|album.tracks|, 0, mouseX, mouseY)
               == TrackClickFrom(|album.tracks|, index, mouseX, mouseY)
        invariant unchanged(this)
      {
        var x := 100;
        var y := 100 + index * 40;
        if mouseX >= x && mouseX <= x + ScreenWidth - 200 && mouseY >= y && mouseY <= y + 40 {
          if index == |album.tracks| {
            // The reset branch: the loop never reaches an index equal to the track count.
            assert false;
          } else {
            selectedTrack := Some(index);
            PlayTrack(album.tracks[index].location);
          }
          break;
        } else if mouseX >= 100 && mouseX <= 200 && mouseY >= ScreenHeight - 60 && mouseY <= ScreenHeight - 30 {
          inAlbumSelection := true;
          selectedAlbum := None;
          selectedTrack := None;
          break;
        }
        index := index + 1;
      }
    }

    method PlayTrack(location: string)
      modifies this
      ensures State() == AfterPlayTrack(old(State()), location)
    {
      song := Some(location);
      nowPlaying := Some(Basename(location));
    }
  }
}
