/** `TiledReader::read_from` (src/main.rs:13-27): the resource reader the
    map loader is given. It serves two files embedded in the program and
    reports every other path as not found. Paths are compared the way Rust's
    `Path` equality compares them: component by component (Unix separators). */
module TiledReader {

  /** Which embedded file a successful read hands back; the bytes themselves
      are not modelled. */
  datatype Resource = WorldMap | BackgroundTiles

  datatype ErrorKind = NotFound

  /** A `std::io::Error` built from a kind and a message. */
  datatype IoError = IoError(kind: ErrorKind, message: string)

  datatype Result<T> = Ok(value: T) | Err(error: IoError)

  const WorldMapPath: string := "data/world.tmx"
  const BackgroundTilesPath: string := "data/background_tiles.tsx"
  const NotFoundMessage: string := "file not found"

  /** A component of a path, as `Path::components` yields them. */
  datatype Component = RootDir | CurDir | ParentDir | Normal(name: string)

  /** The pieces of `p` between its separators: `p` split at every '/'. */
  function Segments(p: string): seq<string> {
    SegmentsFrom(p, "")
  }

  /** The pieces of `current + p` when `current` holds no separator. */
  function SegmentsFrom(p: string, current: string): (r: seq<string>)
    ensures |r| >= 1
    decreases |p|
  {
    if p == [] then [current]
    else if p[0] == '/' then [current] + SegmentsFrom(p[1..], "")
    else SegmentsFrom(p[1..], current + [p[0]])
  }

  /** The pieces joined back with a '/' between each two. */
  function Join(pieces: seq<string>): string {
    if pieces == [] then ""
    else if |pieces| == 1 then pieces[0]
    else pieces[0] + "/" + Join(pieces[1..])
  }

  /** Empty pieces and "." pieces carry no component; ".." is the parent. */
  function PieceComponents(pieces: seq<string>): (r: seq<Component>)
    ensures RootDir !in r && CurDir !in r
    ensures |r| <= |pieces|
  {
    if pieces == [] then []
    else
      var rest := PieceComponents(pieces[1..]);
      if pieces[0] == "" || pieces[0] == "." then rest
      else if pieces[0] == ".." then [ParentDir] + rest
      else [Normal(pieces[0])] + rest
  }

  /** `Path::components`: a leading '/' is the root; a leading "." followed by
      the end or a '/' is kept as the current directory; every other "." and
      every repeated or trailing separator is dropped. */
  function Components(p: string): (r: seq<Component>)
    ensures (|r| > 0 && r[0] == RootDir) <==> (|p| > 0 && p[0] == '/')
    ensures (|r| > 0 && r[0] == CurDir) <==> (p == "." || (|p| >= 2 && p[0] == '.' && p[1] == '/'))
    ensures |r| > 0 ==> RootDir !in r[1..] && CurDir !in r[1..]
  {
    if |p| > 0 && p[0] == '/' then [RootDir] + PieceComponents(Segments(p[1..]))
    else if p == "." || (|p| >= 2 && p[0] == '.' && p[1] == '/') then [CurDir] + PieceComponents(Segments(p[1..]))
    else PieceComponents(Segments(p))
  }

  /** Rust's `Path` equality. */
  predicate SamePath(p: string, q: string): (r: bool)
    ensures r ==> ((|p| > 0 && p[0] == '/') <==> (|q| > 0 && q[0] == '/'))
    ensures r ==> (p == "." || (|p| >= 2 && p[0] == '.' && p[1] == '/')) == (q == "." || (|q| >= 2 && q[0] == '.' && q[1] == '/'))
  {
    Components(p) == Components(q)
  }

  /** The reader's dispatch on the requested path. */
  function ReadFrom(path: string): (r: Result<Resource>)
    ensures r.Ok? <==> SamePath(path, WorldMapPath) || SamePath(path, BackgroundTilesPath)
    ensures SamePath(path, WorldMapPath) ==> r == Ok(WorldMap)
    ensures SamePath(path, BackgroundTilesPath) ==> r == Ok(BackgroundTiles)
    ensures r.Err? ==> r.error == IoError(NotFound, NotFoundMessage)
  {
    WorldMapComponents();
    BackgroundTilesComponents();
    if SamePath(path, WorldMapPath) then Ok(WorldMap)
    else if SamePath(path, BackgroundTilesPath) then Ok(BackgroundTiles)
    else Err(IoError(NotFound, NotFoundMessage))
  }

  // ---------------------------------------------------------------------
  // Lemmas

  /** Splitting at the separators and joining again gives the path back. */
  lemma {:induction false} SegmentsFromJoin(p: string, current: string)
    requires '/' !in current
    ensures Join(SegmentsFrom(p, current)) == current + p
    ensures forall piece | piece in SegmentsFrom(p, current) :: '/' !in piece
    decreases |p|
  {
    if p == [] {
      assert current + p == current;
    } else if p[0] == '/' {
      var rest := SegmentsFrom(p[1..], "");
      SegmentsFromJoin(p[1..], "");
      assert ([current] + rest)[1..] == rest;
      assert Join([current] + rest) == current + "/" + Join(rest);
      assert current + "/" + p[1..] == current + p;
    } else {
      SegmentsFromJoin(p[1..], current + [p[0]]);
      assert (current + [p[0]]) + p[1..] == current + p;
    }
  }

  /** Segments is a faithful split: joining its pieces with '/' restores the
      path, and no piece holds a separator. */
  lemma SegmentsRoundTrip(p: string)
    ensures Join(Segments(p)) == p
    ensures forall piece | piece in Segments(p) :: '/' !in piece
  {
    SegmentsFromJoin(p, "");
  }

  /** A separator-free word is one piece. */
  lemma {:induction false} SegmentsOfWord(word: string, current: string)
    requires '/' !in word
    ensures SegmentsFrom(word, current) == [current + word]
    decreases |word|
  {
    if word == [] {
      assert current + word == current;
    } else {
      SegmentsOfWord(word[1..], current + [word[0]]);
      assert (current + [word[0]]) + word[1..] == current + word;
    }
  }

  /** A separator-free word followed by a separator ends a piece. */
  lemma {:induction false} SegmentsOfWordThenSeparator(word: string, rest: string, current: string)
    requires '/' !in word
    ensures SegmentsFrom(word + "/" + rest, current) == [current + word] + SegmentsFrom(rest, "")
    decreases |word|
  {
    if word == [] {
      assert word + "/" + rest == "/" + rest;
      assert ("/" + rest)[1..] == rest;
      assert current + word == current;
    } else {
      var p := word + "/" + rest;
      assert p[0] == word[0] && p[1..] == word[1..] + "/" + rest;
      SegmentsOfWordThenSeparator(word[1..], rest, current + [word[0]]);
      assert (current + [word[0]]) + word[1..] == current + word;
    }
  }

  /** Joining separator-free pieces and splitting again gives them back. */
  lemma {:induction false} JoinSegmentsRoundTrip(pieces: seq<string>)
    requires pieces != []
    requires forall piece | piece in pieces :: '/' !in piece
    ensures Segments(Join(pieces)) == pieces
  {
    if |pieces| == 1 {
      SegmentsOfWord(pieces[0], "");
      assert "" + pieces[0] == pieces[0];
    } else {
      JoinSegmentsRoundTrip(pieces[1..]);
      SegmentsOfWordThenSeparator(pieces[0], Join(pieces[1..]), "");
      assert "" + pieces[0] == pieces[0];
      assert [pieces[0]] + pieces[1..] == pieces;
    }
  }

  /** Pieces that are plain names are one component each. */
  lemma {:induction false} PieceComponentsOfNames(pieces: seq<string>)
    requires forall piece | piece in pieces :: piece != "" && piece != "." && piece != ".."
    ensures |PieceComponents(pieces)| == |pieces|
    ensures forall i | 0 <= i < |pieces| :: PieceComponents(pieces)[i] == Normal(pieces[i])
  {
    if pieces != [] {
      assert forall piece | piece in pieces[1..] :: piece in pieces;
      PieceComponentsOfNames(pieces[1..]);
      assert pieces[0] in pieces;
      assert PieceComponents(pieces) == [Normal(pieces[0])] + PieceComponents(pieces[1..]);
    }
  }

  /** A path made of separator-free pieces, the first of them a plain name,
      has the components of its pieces. */
  lemma ComponentsOfJoin(pieces: seq<string>)
    requires pieces != [] && pieces[0] != "" && pieces[0] != "." && pieces[0] != ".."
    requires forall piece | piece in pieces :: '/' !in piece
    ensures Components(Join(pieces)) == PieceComponents(pieces)
  {
    var p, first := Join(pieces), pieces[0];
    assert first in pieces;
    if |pieces| > 1 {
      assert p == first + ("/" + Join(pieces[1..]));
    }
    assert p[..|first|] == first;
    assert p[0] == first[0];
    assert |first| >= 2 ==> p[1] == first[1];
    assert |first| == 1 && |pieces| > 1 ==> p[1] == '/';
    JoinSegmentsRoundTrip(pieces);
  }

  lemma WorldMapSpelling()
    ensures WorldMapPath == Join(["data", "world.tmx"])
  {
  }

  lemma BackgroundTilesSpelling()
    ensures BackgroundTilesPath == Join(["data", "background_tiles.tsx"])
  {
  }

  lemma WorldMapComponents()
    ensures Components(WorldMapPath) == [Normal("data"), Normal("world.tmx")]
  {
    WorldMapSpelling();
    ComponentsOfJoin(["data", "world.tmx"]);
  }

  lemma BackgroundTilesComponents()
    ensures Components(BackgroundTilesPath) == [Normal("data"), Normal("background_tiles.tsx")]
  {
    BackgroundTilesSpelling();
    ComponentsOfJoin(["data", "background_tiles.tsx"]);
  }

  /** The two embedded files are served, each under its own path. */
  lemma ReadsEmbeddedFiles()
    ensures ReadFrom(WorldMapPath) == Ok(WorldMap)
    ensures ReadFrom(BackgroundTilesPath) == Ok(BackgroundTiles)
  {
    WorldMapComponents();
    BackgroundTilesComponents();
  }

  /** The components of concatenated pieces are those of each part. */
  lemma {:induction false} PieceComponentsAppend(a: seq<string>, b: seq<string>)
    ensures PieceComponents(a + b) == PieceComponents(a) + PieceComponents(b)
  {
    if a == [] {
      assert a + b == b;
    } else {
      assert (a + b)[0] == a[0] && (a + b)[1..] == a[1..] + b;
      PieceComponentsAppend(a[1..], b);
      var head := if a[0] == "" || a[0] == "." then [] else if a[0] == ".." then [ParentDir] else [Normal(a[0])];
      assert PieceComponents(a) == head + PieceComponents(a[1..]);
      assert PieceComponents(a + b) == head + PieceComponents(a[1..] + b);
    }
  }

  /** An empty piece (a repeated or trailing separator) or a "." piece after
      the first does not change which file is read. */
  lemma IgnoredPiecesDoNotMatter(a: seq<string>, x: string, b: seq<string>)
    requires a != [] && a[0] != "" && a[0] != "." && a[0] != ".."
    requires x == "" || x == "."
    requires forall piece | piece in a + [x] + b :: '/' !in piece
    ensures ReadFrom(Join(a + [x] + b)) == ReadFrom(Join(a + b))
  {
    IgnoredPiecesComponents(a, x, b);
  }

  lemma IgnoredPiecesComponents(a: seq<string>, x: string, b: seq<string>)
    requires a != [] && a[0] != "" && a[0] != "." && a[0] != ".."
    requires x == "" || x == "."
    requires forall piece | piece in a + [x] + b :: '/' !in piece
    ensures Components(Join(a + [x] + b)) == Components(Join(a + b))
  {
    var withX, without := a + [x] + b, a + b;
    assert PieceComponents(withX) == PieceComponents(without) by {
      PieceComponentsAppend(a + [x], b);
      PieceComponentsAppend(a, [x]);
      PieceComponentsAppend(a, b);
      assert PieceComponents([x]) == [];
    }
    assert Components(Join(withX)) == PieceComponents(withX) by {
      assert withX[0] == a[0];
      ComponentsOfJoin(withX);
    }
    assert Components(Join(without)) == PieceComponents(without) by {
      assert without[0] == a[0];
      forall piece | piece in without
        ensures '/' !in piece
      {
        assert piece in withX;
      }
      ComponentsOfJoin(without);
    }
  }

  /** A path that starts with "./" has a current-directory component first,
      so neither file is found under it. */
  lemma LeadingCurrentDirectoryNotFound(p: string)
    requires |p| >= 2 && p[0] == '.' && p[1] == '/'
    ensures ReadFrom(p) == Err(IoError(NotFound, NotFoundMessage))
  {
    WorldMapComponents();
    BackgroundTilesComponents();
    assert Components(p)[0] == CurDir;
  }

  /** An absolute path has a root component first, so neither file is found
      under it. */
  lemma AbsolutePathNotFound(p: string)
    requires |p| >= 1 && p[0] == '/'
    ensures ReadFrom(p) == Err(IoError(NotFound, NotFoundMessage))
  {
    WorldMapComponents();
    BackgroundTilesComponents();
    assert Components(p)[0] == RootDir;
  }
}
