/** The catalog loader (`read_albums`): a line-oriented record format read
    into an ordered list of albums, each with its ordered tracks.

    The file is given as the sequence of its lines, already chomped. The
    format is: the number of albums, then per album its title, artist,
    artwork path and number of tracks, then per track its name and location.
    Counts are read with Ruby's `to_i` and used with `times`, so a count that
    does not parse reads as 0 and a negative one runs no iteration. Running
    out of lines is fatal: `gets` yields nil and `chomp` raises, so no album
    list, partial or not, is produced. */
module Catalog {
  import opened Wrappers
  import opened Integers

  /** The artwork image loaded from `path`; only its size matters here. */
  datatype Artwork = Artwork(path: string, width: nat, height: nat)

  datatype Track = Track(name: string, location: string)

  datatype Album = Album(title: string, artist: string, artwork: Artwork, tracks: seq<Track>)

  /** `gets` returned nil before every declared record was read. */
  datatype LoadError = UnexpectedEndOfFile

  /** How many iterations `line.to_i.times` runs. */
  function Times(line: string): nat {
    var n := ToInt(line);
    if n < 0 then 0 else n
  }

  // ---------------------------------------------------------------------------
  // The parser as a function

  /** The `count` tracks whose name and location lines start at `pos`. */
  function TracksAt(lines: seq<string>, pos: nat, count: nat): (tracks: seq<Track>)
    requires pos + 2 * count <= |lines|
    ensures |tracks| == count
  {
    if count == 0 then []
    else TracksAt(lines, pos, count - 1) + [Track(lines[pos + 2 * (count - 1)], lines[pos + 2 * (count - 1) + 1])]
  }

  lemma {:induction false} TracksAtIndex(lines: seq<string>, pos: nat, count: nat, j: nat)
    requires pos + 2 * count <= |lines| && j < count
    ensures TracksAt(lines, pos, count)[j] == Track(lines[pos + 2 * j], lines[pos + 2 * j + 1])
  {
    if j < count - 1 {
      TracksAtIndex(lines, pos, count - 1, j);
    }
  }

  /** `prefix` put in front of a list that may not exist. */
  function Prefixed(prefix: seq<Album>, rest: Option<seq<Album>>): Option<seq<Album>> {
    match rest
    case None => None
    case Some(r) => Some(prefix + r)
  }

  /** Reads `n` album records starting at line `pos`; None when the lines run out. */
  function ParseAlbums(lines: seq<string>, pos: nat, n: nat, load: string -> Artwork): (r: Option<seq<Album>>)
    ensures r.Some? ==> |r.value| == n
    decreases n
  {
    if n == 0 then Some([])
    else if pos + 4 > |lines| then None
    else
      var count := Times(lines[pos + 3]);
      if pos + 4 + 2 * count > |lines| then None
      else
        var album := Album(lines[pos], lines[pos + 1], load(lines[pos + 2]), TracksAt(lines, pos + 4, count));
        Prefixed([album], ParseAlbums(lines, pos + 4 + 2 * count, n - 1, load))
  }

  /** What `read_albums` returns for the file `lines`, given the image loader `load`. */
  function ParsedCatalog(lines: seq<string>, load: string -> Artwork): (r: Result<seq<Album>, LoadError>)
    ensures r.Success? ==> lines != [] && |r.value| == Times(lines[0])
  {
    if lines == [] then Failure(UnexpectedEndOfFile)
    else match ParseAlbums(lines, 1, Times(lines[0]), load)
      case None => Failure(UnexpectedEndOfFile)
      case Some(albums) => Success(albums)
  }

  lemma PrefixedAppend(a: seq<Album>, b: seq<Album>, rest: Option<seq<Album>>)
    ensures Prefixed(a, Prefixed(b, rest)) == Prefixed(a + b, rest)
  {
    if rest.Some? {
      assert a + (b + rest.value) == (a + b) + rest.value;
    }
  }

  lemma PrefixedEmpty(rest: Option<seq<Album>>)
    ensures Prefixed([], rest) == rest
  {
    if rest.Some? {
      assert [] + rest.value == rest.value;
    }
  }

  /** Reading an album record fails when the lines run out before its tracks end. */
  lemma ParseAlbumsShort(lines: seq<string>, pos: nat, n: nat, load: string -> Artwork)
    requires n > 0
    requires pos + 4 > |lines| || pos + 4 + 2 * Times(lines[pos + 3]) > |lines|
    ensures ParseAlbums(lines, pos, n, load) == None
  {
  }

  /** One album record read from `pos`, followed by the remaining `n - 1`. */
  lemma ParseAlbumsStep(lines: seq<string>, pos: nat, n: nat, count: nat, load: string -> Artwork)
    requires n > 0 && pos + 4 <= |lines|
    requires count == Times(lines[pos + 3]) && pos + 4 + 2 * count <= |lines|
    ensures ParseAlbums(lines, pos, n, load)
         == Prefixed([Album(lines[pos], lines[pos + 1], load(lines[pos + 2]), TracksAt(lines, pos + 4, count))],
                     ParseAlbums(lines, pos + 4 + 2 * count, n - 1, load))
  {
  }

  /** The album read at `pos` put in front of the `n` records read after it. */
  lemma ParseCons(lines: seq<string>, pos: nat, a: Album, rest: seq<Album>, load: string -> Artwork)
    requires pos + 4 <= |lines| && Times(lines[pos + 3]) == |a.tracks| && pos + AlbumSpan(a) <= |lines|
    requires a == Album(lines[pos], lines[pos + 1], load(lines[pos + 2]), TracksAt(lines, pos + 4, |a.tracks|))
    requires ParseAlbums(lines, pos + AlbumSpan(a), |rest|, load) == Some(rest)
    ensures ParseAlbums(lines, pos, |[a] + rest|, load) == Some([a] + rest)
  {
    ParseAlbumsStep(lines, pos, |[a] + rest|, |a.tracks|, load);
  }

  /** The outer loop's invariant survives appending the album record read at `pos`. */
  lemma AppendAlbum(lines: seq<string>, whole: Option<seq<Album>>, albums: seq<Album>, pos: nat, next: nat,
                    total: nat, i: nat, album: Album, load: string -> Artwork)
    requires i < total && pos + 4 <= |lines|
    requires whole == Prefixed(albums, ParseAlbums(lines, pos, total - i, load))
    requires next == pos + 4 + 2 * Times(lines[pos + 3]) <= |lines|
    requires album == Album(lines[pos], lines[pos + 1], load(lines[pos + 2]),
                            TracksAt(lines, pos + 4, Times(lines[pos + 3])))
    ensures whole == Prefixed(albums + [album], ParseAlbums(lines, next, total - (i + 1), load))
  {
    ParseAlbumsStep(lines, pos, total - i, Times(lines[pos + 3]), load);
    PrefixedAppend(albums, [album], ParseAlbums(lines, next, total - (i + 1), load));
  }

  // ---------------------------------------------------------------------------
  // The parser as the Ruby code runs it: counted loops that append

  /** The inner loop of `read_albums`: reads `count` tracks, two lines each,
      from line `pos`; None when the lines run out first. */
  method ReadTracks(lines: seq<string>, pos: nat, count: nat) returns (r: Option<seq<Track>>)
    requires pos <= |lines|
    ensures pos + 2 * count <= |lines| ==> r == Some(TracksAt(lines, pos, count))
    ensures pos + 2 * count > |lines| ==> r == None
  {
    var tracks: seq<Track> := [];
    var next := pos;
    var j := 0;
    while j < count
      invariant 0 <= j <= count
      invariant next == pos + 2 * j <= |lines|
      invariant tracks == TracksAt(lines, pos, j)
    {
      if next + 2 > |lines| {
        // the `gets` for the track name or its location yields nil
        return None;
      }
      tracks := tracks + [Track(lines[next], lines[next + 1])];
      next := next + 2;
      j := j + 1;
    }
    return Some(tracks);
  }

  method ReadAlbums(lines: seq<string>, load: string -> Artwork) returns (r: Result<seq<Album>, LoadError>)
    ensures r == ParsedCatalog(lines, load)
  {
    if |lines| == 0 {
      return Failure(UnexpectedEndOfFile);
    }
    var numAlbums := Times(lines[0]);
    var albums: seq<Album> := [];
    var pos := 1;
    var i := 0;
    ghost var whole := ParseAlbums(lines, 1, numAlbums, load);
    PrefixedEmpty(whole);
    while i < numAlbums
      invariant 0 <= i <= numAlbums && 1 <= pos <= |lines|
      invariant whole == Prefixed(albums, ParseAlbums(lines, pos, numAlbums - i, load))
    {
      if pos + 4 > |lines| {
        assert whole == None by {
          ParseAlbumsShort(lines, pos, numAlbums - i, load);
        }
        // one of the four `gets` for title, artist, artwork path and count yields nil
        return Failure(UnexpectedEndOfFile);
      }
      var title, artist, artworkPath := lines[pos], lines[pos + 1], lines[pos + 2];
      var tracksCount := Times(lines[pos + 3]);
      var tracks := ReadTracks(lines, pos + 4, tracksCount);
      if tracks.None? {
        assert whole == None by {
          ParseAlbumsShort(lines, pos, numAlbums - i, load);
        }
        return Failure(UnexpectedEndOfFile);
      }
      var album := Album(title, artist, load(artworkPath), tracks.value);
      var next := pos + 4 + 2 * tracksCount;
      AppendAlbum(lines, whole, albums, pos, next, numAlbums, i, album, load);
      albums := albums + [album];
      pos := next;
      i := i + 1;
    }
    assert whole == Some(albums) by {
      assert albums + [] == albums;
    }
    return Success(albums);
  }

  // ---------------------------------------------------------------------------
  // The layout of a catalog file, stated field by field

  /** The lines one album record takes: four fields, then two per track. */
  function AlbumSpan(a: Album): nat {
    4 + 2 * |a.tracks|
  }

  function Span(albums: seq<Album>): nat {
    if albums == [] then 0 else AlbumSpan(albums[0]) + Span(albums[1..])
  }

  /** The lines a catalog holding `albums` takes: the count line, then the records. */
  function LinesUsed(albums: seq<Album>): nat {
    1 + Span(albums)
  }

  /** Track j's name and location are lines pos + 2j and pos + 2j + 1. */
  ghost predicate TracksFrom(lines: seq<string>, pos: nat, tracks: seq<Track>) {
    && pos + 2 * |tracks| <= |lines|
    && forall j :: 0 <= j < |tracks| ==> tracks[j] == Track(lines[pos + 2 * j], lines[pos + 2 * j + 1])
  }

  /** Line `pos` starts the record of album `a`: each field is the next line. */
  ghost predicate AlbumAt(lines: seq<string>, pos: nat, a: Album, load: string -> Artwork) {
    && pos + 4 <= |lines|
    && a.title == lines[pos]
    && a.artist == lines[pos + 1]
    && a.artwork == load(lines[pos + 2])
    && Times(lines[pos + 3]) == |a.tracks|
    && TracksFrom(lines, pos + 4, a.tracks)
  }

  /** The records of `albums` lie one after another from line `pos`. */
  ghost predicate AlbumsFrom(lines: seq<string>, pos: nat, albums: seq<Album>, load: string -> Artwork) {
    && pos + Span(albums) <= |lines|
    && forall k :: 0 <= k < |albums| ==> AlbumAt(lines, pos + Span(albums[..k]), albums[k], load)
  }

  /** `lines` is a catalog file of `albums`: the first line gives their number,
      and album k starts 1 + Span(albums[..k]) lines in. */
  ghost predicate Describes(lines: seq<string>, albums: seq<Album>, load: string -> Artwork) {
    && |lines| >= 1
    && Times(lines[0]) == |albums|
    && AlbumsFrom(lines, 1, albums, load)
  }

  lemma SpanOfPrefix(albums: seq<Album>, k: nat)
    requires 1 <= k <= |albums|
    ensures Span(albums[..k]) == AlbumSpan(albums[0]) + Span(albums[1..][..k - 1])
  {
    assert albums[..k][1..] == albums[1..][..k - 1];
  }

  /** Records laid out from `pos` start with the first one there, then the rest. */
  lemma LaidOutTail(lines: seq<string>, pos: nat, albums: seq<Album>, load: string -> Artwork)
    requires albums != [] && AlbumsFrom(lines, pos, albums, load)
    ensures AlbumAt(lines, pos, albums[0], load)
    ensures AlbumsFrom(lines, pos + AlbumSpan(albums[0]), albums[1..], load)
  {
    var next := pos + AlbumSpan(albums[0]);
    var rest := albums[1..];
    assert albums[..0] == [];
    forall k | 0 <= k < |rest|
      ensures AlbumAt(lines, next + Span(rest[..k]), rest[k], load)
    {
      var at := pos + Span(albums[..k + 1]);
      assert at == next + Span(rest[..k]) by {
        SpanOfPrefix(albums, k + 1);
      }
      assert albums[k + 1] == rest[k];
    }
  }

  /** A record at `pos` followed by records laid out after it are laid out from `pos`. */
  lemma LaidOutCons(lines: seq<string>, pos: nat, a: Album, rest: seq<Album>, load: string -> Artwork)
    requires AlbumAt(lines, pos, a, load) && AlbumsFrom(lines, pos + AlbumSpan(a), rest, load)
    ensures AlbumsFrom(lines, pos, [a] + rest, load)
  {
    var albums := [a] + rest;
    assert albums[1..] == rest;
    forall k | 0 <= k < |albums|
      ensures AlbumAt(lines, pos + Span(albums[..k]), albums[k], load)
    {
      if k == 0 {
        assert albums[..0] == [];
      } else {
        var at := pos + AlbumSpan(a) + Span(rest[..k - 1]);
        assert pos + Span(albums[..k]) == at by {
          SpanOfPrefix(albums, k);
        }
        assert albums[k] == rest[k - 1];
      }
    }
  }

  /** The record at `pos` describes `a` exactly when `a` is the album read there. */
  lemma AlbumAtIsRead(lines: seq<string>, pos: nat, a: Album, load: string -> Artwork)
    requires pos + 4 <= |lines| && pos + 4 + 2 * Times(lines[pos + 3]) <= |lines|
    ensures var count := Times(lines[pos + 3]);
            AlbumAt(lines, pos, a, load) <==>
            a == Album(lines[pos], lines[pos + 1], load(lines[pos + 2]), TracksAt(lines, pos + 4, count))
  {
    var count := Times(lines[pos + 3]);
    var tracks := TracksAt(lines, pos + 4, count);
    forall j | 0 <= j < count
      ensures tracks[j] == Track(lines[pos + 4 + 2 * j], lines[pos + 4 + 2 * j + 1])
    {
      TracksAtIndex(lines, pos + 4, count, j);
    }
    if AlbumAt(lines, pos, a, load) {
      assert a.tracks == tracks;
    }
  }

  /** The records of `albums` lie one after another from line `pos`, stated
      record by record. */
  ghost predicate Chained(lines: seq<string>, pos: nat, albums: seq<Album>, load: string -> Artwork)
    decreases |albums|
  {
    if albums == [] then pos <= |lines|
    else AlbumAt(lines, pos, albums[0], load) && Chained(lines, pos + AlbumSpan(albums[0]), albums[1..], load)
  }

  lemma {:induction false} LaidOutIsChained(lines: seq<string>, pos: nat, albums: seq<Album>,
                                            load: string -> Artwork)
    requires AlbumsFrom(lines, pos, albums, load)
    ensures Chained(lines, pos, albums, load)
    decreases |albums|
  {
    if albums != [] {
      var next := pos + AlbumSpan(albums[0]);
      assert AlbumAt(lines, pos, albums[0], load) && AlbumsFrom(lines, next, albums[1..], load) by {
        LaidOutTail(lines, pos, albums, load);
      }
      LaidOutIsChained(lines, next, albums[1..], load);
    }
  }

  lemma {:induction false} ChainedIsParsed(lines: seq<string>, pos: nat, albums: seq<Album>,
                                           load: string -> Artwork)
    requires Chained(lines, pos, albums, load)
    ensures ParseAlbums(lines, pos, |albums|, load) == Some(albums)
    decreases |albums|
  {
    if albums == [] {
      return;
    }
    var album, rest := albums[0], albums[1..];
    AlbumAtIsRead(lines, pos, album, load);
    ChainedIsParsed(lines, pos + AlbumSpan(album), rest, load);
    ParseCons(lines, pos, album, rest, load);
    assert [album] + rest == albums;
  }

  /** Records laid out from `pos` are what reading them from `pos` yields. */
  lemma LaidOutIsParsed(lines: seq<string>, pos: nat, albums: seq<Album>, load: string -> Artwork)
    requires AlbumsFrom(lines, pos, albums, load)
    ensures ParseAlbums(lines, pos, |albums|, load) == Some(albums)
  {
    LaidOutIsChained(lines, pos, albums, load);
    ChainedIsParsed(lines, pos, albums, load);
  }

  lemma {:induction false} ParsedIsChained(lines: seq<string>, pos: nat, n: nat, albums: seq<Album>,
                                           load: string -> Artwork)
    requires pos <= |lines|
    requires ParseAlbums(lines, pos, n, load) == Some(albums)
    ensures Chained(lines, pos, albums, load)
    decreases n
  {
    if n == 0 {
      return;
    }
    if pos + 4 > |lines| || pos + 4 + 2 * Times(lines[pos + 3]) > |lines| {
      ParseAlbumsShort(lines, pos, n, load);
      return;
    }
    var count := Times(lines[pos + 3]);
    var album := Album(lines[pos], lines[pos + 1], load(lines[pos + 2]), TracksAt(lines, pos + 4, count));
    ParseAlbumsStep(lines, pos, n, count, load);
    var rest := ParseAlbums(lines, pos + 4 + 2 * count, n - 1, load).value;
    assert albums == [album] + rest;
    assert albums[0] == album && albums[1..] == rest;
    ParsedIsChained(lines, pos + 4 + 2 * count, n - 1, rest, load);
    AlbumAtIsRead(lines, pos, album, load);
  }

  lemma {:induction false} ChainedIsLaidOut(lines: seq<string>, pos: nat, albums: seq<Album>,
                                            load: string -> Artwork)
    requires Chained(lines, pos, albums, load)
    ensures AlbumsFrom(lines, pos, albums, load)
    decreases |albums|
  {
    if albums != [] {
      ChainedIsLaidOut(lines, pos + AlbumSpan(albums[0]), albums[1..], load);
      LaidOutCons(lines, pos, albums[0], albums[1..], load);
      assert [albums[0]] + albums[1..] == albums;
    }
  }

  /** What reading `n` records from `pos` yields is laid out from `pos`. */
  lemma ParsedIsLaidOut(lines: seq<string>, pos: nat, n: nat, albums: seq<Album>, load: string -> Artwork)
    requires pos <= |lines|
    requires ParseAlbums(lines, pos, n, load) == Some(albums)
    ensures |albums| == n && AlbumsFrom(lines, pos, albums, load)
  {
    ParsedIsChained(lines, pos, n, albums, load);
    ChainedIsLaidOut(lines, pos, albums, load);
  }

  /** `read_albums` returns `albums` exactly when the file lays out their records:
      the first line counts them, each album's four fields come from the next
      four lines and its count line gives its number of tracks, each track's
      name and location come from the next two lines, in order; so
      1 + Σ (4 + 2·tracks) lines are read. */
  lemma CatalogLayout(lines: seq<string>, albums: seq<Album>, load: string -> Artwork)
    ensures ParsedCatalog(lines, load) == Success(albums) <==> Describes(lines, albums, load)
    ensures ParsedCatalog(lines, load) == Success(albums) ==> LinesUsed(albums) <= |lines|
  {
    if ParsedCatalog(lines, load) == Success(albums) {
      ParsedIsLaidOut(lines, 1, Times(lines[0]), albums, load);
    }
    if Describes(lines, albums, load) {
      LaidOutIsParsed(lines, 1, albums, load);
    }
  }

  /** Album k's record ends within the lines the whole catalog uses. */
  lemma {:induction false} RecordWithinCatalog(albums: seq<Album>, k: nat)
    requires k < |albums|
    ensures Span(albums[..k]) + AlbumSpan(albums[k]) <= Span(albums)
  {
    if k == 0 {
      assert albums[..0] == [];
    } else {
      SpanOfPrefix(albums, k);
      RecordWithinCatalog(albums[1..], k - 1);
      assert albums[1..][k - 1] == albums[k];
    }
  }

  /** Whether `lines` describes `albums` depends only on its first LinesUsed(albums) lines. */
  lemma DescribesOnlyReadsPrefix(lines: seq<string>, other: seq<string>, albums: seq<Album>, load: string -> Artwork)
    requires Describes(lines, albums, load)
    requires LinesUsed(albums) <= |other| && other[..LinesUsed(albums)] == lines[..LinesUsed(albums)]
    ensures Describes(other, albums, load)
  {
    var m := LinesUsed(albums);
    assert forall i :: 0 <= i < m ==> other[i] == other[..m][i] == lines[..m][i] == lines[i];
    assert other[0] == lines[0];
    forall k | 0 <= k < |albums|
      ensures AlbumAt(other, 1 + Span(albums[..k]), albums[k], load)
    {
      RecordWithinCatalog(albums, k);
      assert AlbumAt(lines, 1 + Span(albums[..k]), albums[k], load);
    }
  }

  /** Lines after the last record are never read: `read_albums` ignores trailing data. */
  lemma TrailingLinesIgnored(lines: seq<string>, extra: seq<string>, albums: seq<Album>, load: string -> Artwork)
    requires ParsedCatalog(lines, load) == Success(albums)
    ensures ParsedCatalog(lines + extra, load) == Success(albums)
    ensures LinesUsed(albums) <= |lines| && ParsedCatalog(lines[..LinesUsed(albums)], load) == Success(albums)
  {
    CatalogLayout(lines, albums, load);
    var m := LinesUsed(albums);
    assert (lines + extra)[..m] == lines[..m];
    DescribesOnlyReadsPrefix(lines, lines + extra, albums, load);
    CatalogLayout(lines + extra, albums, load);
    assert lines[..m][..m] == lines[..m];
    DescribesOnlyReadsPrefix(lines, lines[..m], albums, load);
    CatalogLayout(lines[..m], albums, load);
  }

  /** A file cut short anywhere before the end of its last record fails to load,
      and no album list is returned. */
  lemma TruncatedCatalogFails(lines: seq<string>, m: nat, albums: seq<Album>, load: string -> Artwork)
    requires ParsedCatalog(lines, load) == Success(albums)
    requires m < LinesUsed(albums) <= |lines|
    ensures ParsedCatalog(lines[..m], load) == Failure(UnexpectedEndOfFile)
  {
    CatalogLayout(lines, albums, load);
    if ParsedCatalog(lines[..m], load).Success? {
      var other := ParsedCatalog(lines[..m], load).value;
      CatalogLayout(lines[..m], other, load);
      var used := LinesUsed(other);
      assert lines[..m][..used] == lines[..used];
      DescribesOnlyReadsPrefix(lines[..m], lines, other, load);
      CatalogLayout(lines, other, load);
      assert false;
    }
  }

  // ---------------------------------------------------------------------------
  // Writing a catalog file: the inverse of the parser

  function TrackLines(tracks: seq<Track>): (r: seq<string>)
    ensures |r| == 2 * |tracks|
  {
    if tracks == [] then [] else [tracks[0].name, tracks[0].location] + TrackLines(tracks[1..])
  }

  function AlbumLines(a: Album): (r: seq<string>)
    ensures |r| == AlbumSpan(a)
  {
    [a.title, a.artist, a.artwork.path, ShowNat(|a.tracks|)] + TrackLines(a.tracks)
  }

  function AlbumsLines(albums: seq<Album>): (r: seq<string>)
    ensures |r| == Span(albums)
  {
    if albums == [] then [] else AlbumLines(albums[0]) + AlbumsLines(albums[1..])
  }

  /** The catalog file that holds `albums`. */
  function CatalogLines(albums: seq<Album>): (r: seq<string>)
    ensures |r| == LinesUsed(albums)
  {
    [ShowNat(|albums|)] + AlbumsLines(albums)
  }

  /** The image loader gives back each album's artwork from its path. */
  ghost predicate LoadsArtwork(load: string -> Artwork, albums: seq<Album>) {
    forall k :: 0 <= k < |albums| ==> load(albums[k].artwork.path) == albums[k].artwork
  }

  lemma {:induction false} TrackLinesAt(tracks: seq<Track>, j: nat)
    requires j < |tracks|
    ensures TrackLines(tracks)[2 * j] == tracks[j].name
    ensures TrackLines(tracks)[2 * j + 1] == tracks[j].location
  {
    if j > 0 {
      TrackLinesAt(tracks[1..], j - 1);
    }
  }

  /** Written track lines, found at line `pos`, read back as those tracks. */
  lemma TracksRead(lines: seq<string>, pos: nat, tracks: seq<Track>)
    requires pos + 2 * |tracks| <= |lines| && lines[pos..pos + 2 * |tracks|] == TrackLines(tracks)
    ensures TracksAt(lines, pos, |tracks|) == tracks
  {
    var written := lines[pos..pos + 2 * |tracks|];
    forall j | 0 <= j < |tracks|
      ensures TracksAt(lines, pos, |tracks|)[j] == tracks[j]
    {
      TracksAtIndex(lines, pos, |tracks|, j);
      TrackLinesAt(tracks, j);
      assert lines[pos + 2 * j] == written[2 * j];
      assert lines[pos + 2 * j + 1] == written[2 * j + 1];
    }
  }

  /** An album's written record, found at line `pos`, reads back as that album. */
  lemma AlbumRecordRead(lines: seq<string>, pos: nat, a: Album, load: string -> Artwork)
    requires pos + AlbumSpan(a) <= |lines| && lines[pos..pos + AlbumSpan(a)] == AlbumLines(a)
    requires load(a.artwork.path) == a.artwork
    ensures Times(lines[pos + 3]) == |a.tracks|
    ensures a == Album(lines[pos], lines[pos + 1], load(lines[pos + 2]), TracksAt(lines, pos + 4, |a.tracks|))
  {
    var t := |a.tracks|;
    var fields := [a.title, a.artist, a.artwork.path, ShowNat(t)];
    SplitSlice(lines, pos, fields, TrackLines(a.tracks));
    assert lines[pos..pos + 4] == fields;
    assert lines[pos] == fields[0] && lines[pos + 1] == fields[1];
    assert lines[pos + 2] == fields[2] && lines[pos + 3] == fields[3];
    assert Times(lines[pos + 3]) == t by {
      ToIntOfShowNat(t, []);
      assert ShowNat(t) + [] == ShowNat(t);
    }
    TracksRead(lines, pos + 4, a.tracks);
  }

  /** Lines that spell `x + y` from `pos` spell `x` there and `y` right after it. */
  lemma SplitSlice(lines: seq<string>, pos: nat, x: seq<string>, y: seq<string>)
    requires pos + |x| + |y| <= |lines| && lines[pos..pos + |x| + |y|] == x + y
    ensures lines[pos..pos + |x|] == x && lines[pos + |x|..pos + |x| + |y|] == y
  {
    var whole := lines[pos..pos + |x| + |y|];
    assert lines[pos..pos + |x|] == whole[..|x|];
    assert lines[pos + |x|..pos + |x| + |y|] == whole[|x|..];
  }

  /** Written records, found from line `pos`, start with the first album's
      record, which reads back as that album. */
  lemma AlbumsLinesHead(lines: seq<string>, pos: nat, albums: seq<Album>, load: string -> Artwork)
    requires albums != []
    requires pos + Span(albums) <= |lines| && lines[pos..pos + Span(albums)] == AlbumsLines(albums)
    requires LoadsArtwork(load, albums)
    ensures pos + 4 <= |lines| && pos + AlbumSpan(albums[0]) <= |lines|
    ensures Times(lines[pos + 3]) == |albums[0].tracks|
    ensures albums[0] == Album(lines[pos], lines[pos + 1], load(lines[pos + 2]),
                               TracksAt(lines, pos + 4, |albums[0].tracks|))
  {
    SplitSlice(lines, pos, AlbumLines(albums[0]), AlbumsLines(albums[1..]));
    AlbumRecordRead(lines, pos, albums[0], load);
  }

  /** ... and the records of the other albums follow it. */
  lemma AlbumsLinesRest(lines: seq<string>, pos: nat, albums: seq<Album>)
    requires albums != []
    requires pos + Span(albums) <= |lines| && lines[pos..pos + Span(albums)] == AlbumsLines(albums)
    ensures pos + AlbumSpan(albums[0]) + Span(albums[1..]) <= |lines|
    ensures lines[pos + AlbumSpan(albums[0])..pos + AlbumSpan(albums[0]) + Span(albums[1..])]
         == AlbumsLines(albums[1..])
  {
    SplitSlice(lines, pos, AlbumLines(albums[0]), AlbumsLines(albums[1..]));
  }

  lemma LoadsArtworkTail(load: string -> Artwork, albums: seq<Album>)
    requires albums != [] && LoadsArtwork(load, albums)
    ensures LoadsArtwork(load, albums[1..])
  {
    assert forall k :: 0 <= k < |albums[1..]| ==> albums[1..][k] == albums[k + 1];
  }

  /** Written records, found from line `pos`, lie there record by record. */
  lemma {:induction false} AlbumsLinesChained(lines: seq<string>, pos: nat, albums: seq<Album>,
                                              load: string -> Artwork)
    requires pos + Span(albums) <= |lines| && lines[pos..pos + Span(albums)] == AlbumsLines(albums)
    requires LoadsArtwork(load, albums)
    ensures Chained(lines, pos, albums, load)
    decreases |albums|
  {
    if albums != [] {
      AlbumsLinesHead(lines, pos, albums, load);
      AlbumAtIsRead(lines, pos, albums[0], load);
      AlbumsLinesRest(lines, pos, albums);
      LoadsArtworkTail(load, albums);
      AlbumsLinesChained(lines, pos + AlbumSpan(albums[0]), albums[1..], load);
    }
  }

  /** Written records, found from line `pos`, read back as the albums written. */
  lemma AlbumsLinesRead(lines: seq<string>, pos: nat, albums: seq<Album>, load: string -> Artwork)
    requires pos + Span(albums) <= |lines| && lines[pos..pos + Span(albums)] == AlbumsLines(albums)
    requires LoadsArtwork(load, albums)
    ensures ParseAlbums(lines, pos, |albums|, load) == Some(albums)
  {
    AlbumsLinesChained(lines, pos, albums, load);
    ChainedIsParsed(lines, pos, albums, load);
  }

  /** Reading back a written catalog, followed by any trailing lines, gives the
      albums that were written. */
  lemma CatalogRoundTrip(albums: seq<Album>, extra: seq<string>, load: string -> Artwork)
    requires LoadsArtwork(load, albums)
    ensures ParsedCatalog(CatalogLines(albums) + extra, load) == Success(albums)
  {
    var lines := CatalogLines(albums) + extra;
    assert lines[1..1 + Span(albums)] == AlbumsLines(albums);
    ToIntOfShowNat(|albums|, []);
    assert ShowNat(|albums|) + [] == ShowNat(|albums|);
    AlbumsLinesRead(lines, 1, albums, load);
  }

  /** A one-album catalog with two tracks. */
  lemma ExampleCatalog(load: string -> Artwork)
    ensures ParsedCatalog(["1", "Jazz", "Miles", "art.png", "2", "So What", "so_what.mp3", "Blue", "blue.mp3"], load)
         == Success([Album("Jazz", "Miles", load("art.png"), [Track("So What", "so_what.mp3"), Track("Blue", "blue.mp3")])])
  {
    var lines := ["1", "Jazz", "Miles", "art.png", "2", "So What", "so_what.mp3", "Blue", "blue.mp3"];
    assert ShowNat(1) == "1" && ShowNat(2) == "2";
    ToIntOfShowNat(1, []);
    ToIntOfShowNat(2, []);
    assert "1" + [] == "1" && "2" + [] == "2";
    assert Times(lines[0]) == 1 && Times(lines[4]) == 2;
    assert TracksAt(lines, 5, 2) == [Track("So What", "so_what.mp3"), Track("Blue", "blue.mp3")];
    ParseAlbumsStep(lines, 1, 1, 2, load);
    assert ParseAlbums(lines, 9, 0, load) == Some([]);
    var album := Album("Jazz", "Miles", load("art.png"), [Track("So What", "so_what.mp3"), Track("Blue", "blue.mp3")]);
    assert lines[1] == "Jazz" && lines[2] == "Miles" && lines[3] == "art.png";
    assert ParseAlbums(lines, 1, 1, load) == Prefixed([album], Some([]));
    assert [album] + [] == [album];
    assert ParsedCatalog(lines, load) == Success([album]);
  }
}
