/** Hit-testing a click against what the window shows: the 2-column artwork
    grid in album mode, the 40-pixel track rows and the fixed Back rectangle
    in track mode. Every box is inclusive on all four edges, and mouse
    coordinates are whole pixels. */
module Layout {
  import opened Wrappers
  import opened Catalog

  const ScreenWidth := 800
  const ScreenHeight := 600

  // ---------------------------------------------------------------------------
  // Album grid

  /** Left edge of album i's cell: two columns, 200 pixels apart. */
  function CellX(i: nat): int {
    100 + (i % 2) * 200
  }

  /** Top edge of album i's cell: rows 250 pixels apart. */
  function CellY(i: nat): int {
    50 + (i / 2) * 250
  }

  /** The click lies in the box of album i's artwork. */
  predicate InAlbumBox(albums: seq<Album>, i: nat, x: int, y: int)
    requires i < |albums|
  {
    && CellX(i) <= x <= CellX(i) + albums[i].artwork.width
    && CellY(i) <= y <= CellY(i) + albums[i].artwork.height
  }

  /** The first album, from index `from` on, whose box holds the click. */
  function AlbumHitFrom(albums: seq<Album>, from: nat, x: int, y: int): (r: Option<nat>)
    ensures r.Some? ==> from <= r.value < |albums| && InAlbumBox(albums, r.value, x, y)
    ensures r.Some? ==> forall j :: from <= j < r.value ==> !InAlbumBox(albums, j, x, y)
    ensures r.None? ==> forall j :: from <= j < |albums| ==> !InAlbumBox(albums, j, x, y)
    decreases |albums| - from
  {
    if from >= |albums| then None
    else if InAlbumBox(albums, from, x, y) then Some(from)
    else AlbumHitFrom(albums, from + 1, x, y)
  }

  /** Every artwork fits its cell: narrower than the column pitch and shorter
      than the row pitch. */
  predicate FitsCells(albums: seq<Album>) {
    forall i :: 0 <= i < |albums| ==> albums[i].artwork.width < 200 && albums[i].artwork.height < 250
  }

  lemma CellOfIndex(i: nat)
    ensures i == 2 * (i / 2) + i % 2 && (i % 2 == 0 || i % 2 == 1)
  {
  }

  lemma RowsApart(a: nat, b: nat)
    requires a < b
    ensures a * 250 + 250 <= b * 250
  {
  }

  /** With artwork that fits its cell, no click lies in two albums' boxes. */
  lemma CellsDisjoint(albums: seq<Album>, i: nat, j: nat, x: int, y: int)
    requires FitsCells(albums) && i < j < |albums|
    ensures !(InAlbumBox(albums, i, x, y) && InAlbumBox(albums, j, x, y))
  {
    CellOfIndex(i);
    CellOfIndex(j);
    if i / 2 == j / 2 {
      assert i % 2 == 0 && j % 2 == 1;
    } else {
      RowsApart(i / 2, j / 2);
    }
  }

  /** With artwork that fits its cell, a click in album i's box selects album i,
      the album at row i / 2 and column i % 2 of the grid. */
  lemma GridClickSelects(albums: seq<Album>, i: nat, x: int, y: int)
    requires FitsCells(albums) && i < |albums| && InAlbumBox(albums, i, x, y)
    ensures AlbumHitFrom(albums, 0, x, y) == Some(i)
  {
    var r := AlbumHitFrom(albums, 0, x, y);
    if r != Some(i) {
      CellsDisjoint(albums, r.value, i, x, y);
    }
  }

  /** Boxes may overlap when artwork is larger than its cell; the lower index
      then wins. */
  lemma OverlapGoesToLowerIndex(albums: seq<Album>, i: nat, j: nat, x: int, y: int)
    requires i < j < |albums| && InAlbumBox(albums, i, x, y) && InAlbumBox(albums, j, x, y)
    ensures AlbumHitFrom(albums, 0, x, y) != Some(j)
  {
  }

  // ---------------------------------------------------------------------------
  // Track list

  /** Top edge of track row i. */
  function RowY(i: nat): int {
    100 + i * 40
  }

  /** The click lies in track row i: x from 100 to 700, y over the row's 40
      pixels, both edges included. */
  predicate InTrackRow(i: nat, x: int, y: int) {
    100 <= x <= 100 + ScreenWidth - 200 && RowY(i) <= y <= RowY(i) + 40
  }

  /** The click lies in the Back rectangle. */
  predicate InBackButton(x: int, y: int) {
    100 <= x <= 200 && ScreenHeight - 60 <= y <= ScreenHeight - 30
  }

  /** What a click in the track list does. */
  datatype TrackClick = Stay | Back | Play(index: nat)

  /** The track-list loop from iteration `from` on: row `from` is tested
      first, then the Back rectangle, and the first test that holds ends the
      loop. */
  function TrackClickFrom(count: nat, from: nat, x: int, y: int): (r: TrackClick)
    ensures r.Play? ==> from <= r.index < count && InTrackRow(r.index, x, y)
    ensures r.Play? ==> forall k :: from <= k < r.index ==> !InTrackRow(k, x, y)
    ensures r.Play? && from < r.index ==> !InBackButton(x, y)
    ensures r.Back? <==> from < count && InBackButton(x, y) && !InTrackRow(from, x, y)
    ensures r.Stay? ==> forall k :: from <= k < count ==> !InTrackRow(k, x, y)
    decreases count - from
  {
    if from >= count then Stay
    else if InTrackRow(from, x, y) then Play(from)
    else if InBackButton(x, y) then Back
    else TrackClickFrom(count, from + 1, x, y)
  }

  /** A click in the list of an album with `count` tracks. An empty album
      ignores it; otherwise the Back rectangle wins over every row (the first
      iteration tests it, and row 0 lies well above it); otherwise the first
      row holding the click is played. */
  function TrackClickAt(count: nat, x: int, y: int): (r: TrackClick)
    ensures count == 0 ==> r == Stay
    ensures count > 0 && InBackButton(x, y) ==> r == Back
    ensures r == Back ==> count > 0 && InBackButton(x, y)
    ensures r.Play? ==> r.index < count && InTrackRow(r.index, x, y) && !InBackButton(x, y)
    ensures r.Play? ==> forall k :: 0 <= k < r.index ==> !InTrackRow(k, x, y)
    ensures r == Stay ==> count == 0 || (!InBackButton(x, y) && forall k :: 0 <= k < count ==> !InTrackRow(k, x, y))
  {
    TrackClickFrom(count, 0, x, y)
  }

  /** A y on the edge shared by rows i and i + 1 goes to row i. */
  lemma SharedEdgeGoesToUpperRow(count: nat, i: nat, x: int)
    requires i + 1 < count && 100 <= x <= 700 && !InBackButton(x, RowY(i + 1))
    ensures InTrackRow(i, x, RowY(i + 1)) && InTrackRow(i + 1, x, RowY(i + 1))
    ensures TrackClickAt(count, x, RowY(i + 1)) == Play(i)
  {
    var y := RowY(i + 1);
    var r := TrackClickAt(count, x, y);
    assert InTrackRow(i, x, y);
  }

  /** Row 11 of a long album reaches into the Back rectangle; a click there
      goes back rather than playing track 11. */
  lemma BackWinsOverRow11(count: nat)
    requires count >= 12
    ensures InTrackRow(11, 150, 550) && InBackButton(150, 550)
    ensures TrackClickAt(count, 150, 550) == Back
  {
  }
}
