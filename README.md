# Music Player core, in Dafny

A model of the logic of a one-window Gosu album browser and player (`s.rb`):

- **Catalog loader** (`read_albums`): the catalog file, given as its chomped
  lines, is read with counted loops into an ordered list of albums, each with
  its ordered tracks. Counts go through Ruby's `to_i` and `times`. Running out
  of lines makes `gets` return nil and `chomp` raise, so loading fails and no
  album list is produced. Artwork is an abstract image with a natural width
  and height, produced by an image loader passed in as a function.
- **View-state machine** (`button_down`, `select_album`, `select_track`):
  the fields `@in_album_selection`, `@selected_album`, `@selected_track` and
  `@now_playing`. Clicks are hit-tested against the 2-column artwork grid, the
  40-pixel track rows and the fixed Back rectangle, with inclusive boxes,
  integer layout arithmetic and first-match loops.
- **State side of `play_track`**: the song location last loaded (a ghost
  field) and the now-playing label, its basename without extension.

Files:

- `wrappers.dfy` (module `Wrappers`): `Option` and `Result`.
- `integers.dfy` (module `Integers`): `to_i` on decimal text, and decimal printing.
- `catalog.dfy` (module `Catalog`): `Album`, `Track` and `Artwork`. The parser
  as a function (`ParsedCatalog`) and as the looping method (`ReadAlbums`),
  whose inner tracks loop is the method `ReadTracks`.
  The field-by-field layout of a catalog file (`Describes`). A catalog writer
  (`CatalogLines`).
- `paths.dfy` (module `Paths`): `File.basename(location, ".*")`.
- `layout.dfy` (module `Layout`): the grid and row geometry, with first-match
  hit-test functions.
- `player.dfy` (module `Player`): the view state as a value, with transition
  functions and the invariant, plus the class `MusicPlayer`. Its methods run
  the Ruby loops on its fields and are proved to follow those functions.

Behaviour of `s.rb` a reader might not expect:

- The now-playing label is the basename of the track's location. It is not
  the track's name: `blue.mp3` shows `blue`, not `Blue`.
- A clickable track row reaches x = 700, while its highlight is drawn only to
  x = 600.
- Lines after the last declared record are ignored, not rejected.
- The reset branch for a row index equal to the track count never runs. The
  track list is left only through the Back rectangle.

## Model

| member | source | states |
|---|---|---|
| `Catalog.ParsedCatalog` | s.rb:44-69 | The parser as a function. A loaded album list has exactly as many albums as the first line declares through `to_i`. |
| `Catalog.ReadAlbums` | s.rb:44-69 | The counted loops return exactly what the parser function gives: the album list, or the end-of-file failure when a `gets` runs past the last line. |
| `Catalog.ReadTracks` | s.rb:55-61 | The tracks loop returns the `count` tracks whose name and location are the next two lines each, in order, when 2·count lines remain. It returns None exactly when they do not. |
| `Catalog.CatalogLayout` | s.rb:48-64 | Loading yields `albums` if and only if the file lays them out. The first line counts them. Album k starts 1 + Σ_{j<k}(4 + 2·tracks_j) lines in, and its title, artist, artwork path and count are the next four lines. The count gives its number of tracks, and track j's name and location are the next two lines. Success implies that 1 + Σ(4 + 2·tracks) lines exist. |
| `Catalog.TruncatedCatalogFails` | s.rb:47-59 | A file cut anywhere before the end of its last declared record fails to load, and no album list is returned. |
| `Catalog.TrailingLinesIgnored` | s.rb:47-68 | Loading reads exactly the first 1 + Σ(4 + 2·tracks) lines. The same albums load from that prefix and from the file with any lines appended. |
| `Catalog.CatalogRoundTrip` | s.rb:48-64 | A catalog written from `albums`, followed by any lines, loads back as exactly `albums`, given that the image loader returns each album's artwork from its path. |
| `Catalog.ExampleCatalog` | s.rb:48-64 | The file `1, Jazz, Miles, art.png, 2, So What, so_what.mp3, Blue, blue.mp3` loads one album with those two tracks in order. |
| `Catalog.RecordWithinCatalog` | s.rb:50-65 | Each album's record ends within the lines the whole catalog uses. |
| `Integers.ToInt` | s.rb:48 | A count is negative only when its line starts, after white space, with a minus sign. The function reads white space, an optional sign, an optional `0d`/`0D` prefix, then digits that single underscores may separate. |
| `Integers.ToIntOfShowNat` | s.rb:54 | `to_i` reads back the number a decimal numeral starts with, whatever follows it that cannot continue the numeral. That excludes a digit, an underscore before a digit, and, after a lone "0", a `d` or `D` before a digit. |
| `Integers.ToIntOfDecimalPrefix` | s.rb:54 | The base-10 prefix `0d` or `0D` before a numeral is skipped. |
| `Integers.ToIntUnderscores` | s.rb:54 | `"1_000"` reads as 1000. `"1__0"` reads as 1, because a second underscore ends the number. `"_1"` reads as 0. |
| `Integers.ToIntOfNegative` | s.rb:48 | `to_i` of a minus sign and a numeral is the negated number, so `times` runs no iteration. |
| `Integers.NonNumericIsZero` | s.rb:48 | A count line that starts, after white space, with neither a sign nor a digit reads as 0. |
| `Layout.AlbumHitFrom` | s.rb:149-161 | The album found is the lowest index whose inclusive box [100 + (i%2)·200, + width] × [50 + (i/2)·250, + height] holds the click. None is found only when no box holds it. |
| `Layout.CellsDisjoint` | s.rb:150-157 | When every artwork is narrower than 200 and shorter than 250 pixels, no click lies in two albums' boxes. |
| `Layout.GridClickSelects` | s.rb:149-161 | Under the same size bound, a click in album i's box (row i/2, column i%2) selects album i. |
| `Layout.OverlapGoesToLowerIndex` | s.rb:156-161 | When boxes overlap, the click never goes to the higher of two matching indices. |
| `Layout.TrackClickFrom` | s.rb:169-191 | The loop from iteration k plays the first row at or after k that holds the click. It goes Back exactly when row k misses and the Back rectangle holds the click. It stays when no row holds it. |
| `Layout.TrackClickAt` | s.rb:169-191 | An empty album ignores the click. Otherwise the Back rectangle wins over every row. Otherwise the first row holding the click (x in [100, 700], y in [100 + 40i, 140 + 40i]) is played. Back results only from the Back rectangle. |
| `Layout.SharedEdgeGoesToUpperRow` | s.rb:171-174 | A y on the edge shared by rows i and i + 1 lies in both rows and goes to row i. |
| `Layout.BackWinsOverRow11` | s.rb:173-189 | The click (150, 550) lies in row 11 and in the Back rectangle, and goes back in an album of 12 or more tracks. |
| `Paths.Basename` | s.rb:197 | The label is "/" exactly when the path is non-empty and all slashes. Otherwise it holds no '/'. |
| `Paths.WithoutExtension` | s.rb:197 | A component is kept whole exactly when no '.' follows its leading dots. Otherwise it is cut just before its last '.', which lies after the leading dots. |
| `Paths.BasenameOfComponent` | s.rb:197 | For a location `dir + name + slashes`, where `name` is a non-empty component without '/', the label is `name` without its extension. |
| `Paths.BasenameOfFile` | s.rb:197 | For a location `dir/stem.ext`, where the extension holds no '.' or '/', the label is `stem`. |
| `Paths.BasenameOfDotfile` | s.rb:197 | A hidden file's name `.name` with no other dot is kept whole. |
| `Paths.LastDotFrom` | s.rb:197 | The extension starts at the last '.' after the leading dots. None is found only when no '.' lies there. |
| `Player.InitialStateConsistent` | s.rb:37-41 | The fields as the window starts (album mode, nothing selected, nothing playing) satisfy the invariant. |
| `Player.PlayTrackKeepsInvariant` | s.rb:194-198 | Playing a catalog track keeps the invariant, records its location as the song, and sets the label to its basename. |
| `Player.AfterSelectAlbum` | s.rb:148-164 | An album click keeps the invariant and never changes the label or the song. |
| `Player.AfterSelectTrack` | s.rb:166-192 | A track-list click keeps the invariant. |
| `Player.AfterButtonDown` | s.rb:137-146 | Every press keeps the invariant. Any button other than the left one changes nothing. |
| `Player.AfterClicks` | s.rb:137-146 | The invariant holds after any sequence of presses. |
| `Player.ReachableStatesConsistent` | s.rb:37-41 | Every state reached from the start by clicking has: album mode exactly when no album is selected; in track mode a valid album and a track index that is 0 or valid; the label is the basename of a catalog track's location. |
| `Player.AlbumClickOpensAlbum` | s.rb:156-161 | A left click whose first matching box is album i's sets `selected_album = i`, `selected_track = 0` and leaves album mode. Nothing else changes. |
| `Player.AlbumMissChangesNothing` | s.rb:148-164 | A click in album mode in no album's box leaves every field unchanged. |
| `Player.BackReturnsToAlbums` | s.rb:184-189 | In an album with tracks, a click in the Back rectangle returns to album mode and clears both selections, whatever row also holds it. The label and the song are kept. |
| `Player.EmptyAlbumIgnoresClicks` | s.rb:169-191 | The track list of an album without tracks ignores every press. |
| `Player.TrackRowPlays` | s.rb:169-183 | The first row i holding a click outside the Back rectangle sets `selected_track = i` and stays in track mode. The song becomes track i's location, and the label becomes its basename. |
| `Player.OnlyBackLeavesTrackList` | s.rb:175-178 | The track list is left only by a left click in the Back rectangle of an album with tracks. The reset branch for an index equal to the track count never runs. |
| `Player.MusicPlayer.constructor` | s.rb:32-41 | The window starts over the loaded albums in album mode, with no selection, no song and no label. |
| `Player.MusicPlayer.ButtonDown` | s.rb:137-146 | The dispatch on button and mode changes the fields as `AfterButtonDown` does, and keeps the invariant. |
| `Player.MusicPlayer.SelectAlbum` | s.rb:148-164 | The grid loop with its early `break` changes the fields as `AfterSelectAlbum` does, and keeps the invariant. |
| `Player.MusicPlayer.SelectTrack` | s.rb:166-192 | The row loop, with its Back test in every iteration and its early `break`, changes the fields as `AfterSelectTrack` does. Its reset branch is proved dead. |
| `Player.MusicPlayer.PlayTrack` | s.rb:194-198 | Playing a location records it as the song and sets the label to its basename. |

## Left out

- Rendering: `draw`, `draw_background`, `draw_albums`, `draw_tracks`, `draw_now_playing`, `ZOrder`, fonts, the caption and `needs_cursor?` are drawing calls into Gosu. The model does not relate drawn boxes to hit boxes.
- Audio: `Gosu::Song.new`, `play`, `stop` and the `update` tick that stops a song reported as both playing and paused depend on the audio library. Only the location of the song last loaded is kept, as a ghost field. An audio file that cannot be opened, which raises in `play_track`, is not modelled.
- Images: `Gosu::Image.new` is the `load` parameter of the parser. An image file that cannot be opened, which raises, is not modelled.
- File I/O: `File.open` and `gets` are replaced by the sequence of chomped lines. A missing file is not modelled.
- Integers.ToInt: its own contract states only the sign of the result. Its value is stated by `ToIntOfShowNat`, `ToIntOfDecimalPrefix`, `ToIntUnderscores`, `ToIntOfNegative` and `NonNumericIsZero`. Only base 10 is modelled, the base `s.rb` uses.
- Paths.Basename: models POSIX `File.basename(path, ".*")` only. Alternative separators, NUL bytes and encodings are not modelled.
- Mouse coordinates are whole numbers; Gosu passes floats, but only comparisons with integer bounds are made.
- The window and event loop (`MusicPlayer.new.show`, `Gosu::Window`) are not modelled.
