/** Collision-avoiding output-path resolution. The filesystem enters only
    through "does this path exist", so it is an explicit set of existing
    paths. */
module OutputPath {
  import opened Common
  import Strings

  /** A path inside an output directory: `dir` joined with `name`. Paths are
      compared as such pairs. */
  datatype Path = Path(dir: string, name: string)

  /** The highest numeric suffix probed. */
  const MaxSuffix: nat := 9999

  /** The stem used when the name has no file name component. */
  const FallbackStem: string := "file"

  /** Rust's `Path::file_name` on Unix: the last component of `p` when it is
      a normal one. Empty pieces and "." pieces between separators are not
      components, so a trailing "/" or "/." is skipped; a final ".." and a
      path without a normal component (such as "", "." or "/") give none. */
  function FileName(p: string): (r: Option<string>)
    ensures r.Some? ==> r.value != "" && r.value != "." && r.value != ".." && '/' !in r.value
    ensures (forall k :: 0 <= k < |Strings.Split(p, '/')| ==> Skipped(Strings.Split(p, '/')[k])) ==> r.None?
    ensures forall k :: IsLastComponent(Strings.Split(p, '/'), k) ==>
              r == if Strings.Split(p, '/')[k] == ".." then None else Some(Strings.Split(p, '/')[k])
  {
    Strings.SplitPiecesFree(p, '/');
    LastNormal(Strings.Split(p, '/'))
  }

  /** A piece between separators that is not a component: empty, or ".". */
  predicate Skipped(piece: string) {
    piece == "" || piece == "."
  }

  /** `k` is the position of the last piece that is a component. */
  ghost predicate IsLastComponent(pieces: seq<string>, k: int) {
    && 0 <= k < |pieces|
    && !Skipped(pieces[k])
    && forall j :: k < j < |pieces| ==> Skipped(pieces[j])
  }

  /** The last component among the pieces of a path, when it is a normal
      one: none when every piece is skipped or the last component is "..". */
  function LastNormal(pieces: seq<string>): (r: Option<string>)
    requires forall i :: 0 <= i < |pieces| ==> '/' !in pieces[i]
    ensures r.Some? ==> r.value != "" && r.value != "." && r.value != ".." && '/' !in r.value
    ensures r.Some? ==> r.value in pieces
    ensures (forall k :: 0 <= k < |pieces| ==> Skipped(pieces[k])) ==> r.None?
    ensures forall k :: IsLastComponent(pieces, k) ==>
              r == if pieces[k] == ".." then None else Some(pieces[k])
    decreases |pieces|
  {
    if |pieces| == 0 then None
    else
      var last := pieces[|pieces| - 1];
      if Skipped(last) then
        LastComponentOfFront(pieces);
        LastNormal(pieces[..|pieces| - 1])
      else if last == ".." then None
      else Some(last)
  }

  /** Dropping a skipped last piece keeps the last component where it was. */
  lemma LastComponentOfFront(pieces: seq<string>)
    requires |pieces| > 0 && Skipped(pieces[|pieces| - 1])
    ensures forall k :: IsLastComponent(pieces, k) ==> IsLastComponent(pieces[..|pieces| - 1], k)
  {
  }

  /** A single normal component is its own file name. */
  lemma FileNameOfPlainName(name: string)
    requires '/' !in name && name != "" && name != "." && name != ".."
    ensures FileName(name) == Some(name)
  {
    Strings.SplitWithoutSeparator(name, '/');
  }

  /** A file name cut into stem and optional extension. */
  datatype StemExt = StemExt(stem: string, ext: Option<string>)

  /** Rust's split of a file name at its last '.', as `Path::file_stem` and
      `Path::extension` use it: the extension is the text after the last '.'
      unless that '.' is the first character (a dot file such as ".bashrc"
      has no extension), and "foo." has stem "foo" and the empty extension.
      ".." is kept whole. */
  function SplitAtLastDot(name: string): (r: StemExt)
    ensures r.ext.Some? ==> name == r.stem + "." + r.ext.value && r.stem != "" && '.' !in r.ext.value
    ensures r.ext.None? ==> r.stem == name
    ensures r.ext.None? ==> name == ".." || '.' !in name || (name[0] == '.' && '.' !in name[1..])
    ensures name == ".." ==> r.ext.None?
    ensures |name| > 0 && name != ".." ==> (r.ext.Some? <==> '.' in name[1..])
  {
    if name == ".." then StemExt(name, None)
    else
      var pieces := Strings.Split(name, '.');
      var after := pieces[|pieces| - 1];
      Strings.SplitLastPiece(name, '.');
      assert Strings.IsLastPiece(name, '.', after);
      if |after| == |name| then StemExt(name, None)
      else
        var before := name[..|name| - |after| - 1];
        assert name == before + "." + after;
        if before == "" then StemExt(name, None) else StemExt(before, Some(after))
  }

  /** Rust's `Path::file_stem`: present exactly when the path has a file
      name, and then a non-empty prefix of it, the whole file name exactly
      when no '.' follows its first character. */
  function FileStem(p: string): (r: Option<string>)
    ensures r.Some? <==> FileName(p).Some?
    ensures r.Some? ==> r.value != "" && r.value <= FileName(p).value && '/' !in r.value
    ensures r.Some? ==> (r.value == FileName(p).value <==> '.' !in FileName(p).value[1..])
  {
    var f := FileName(p);
    if f.None? then None else Some(SplitAtLastDot(f.value).stem)
  }

  /** Rust's `Path::extension`: present exactly when the file name has a '.'
      after its first character; then the file name is the stem, a '.', and
      the extension. When absent, the stem is the whole file name. */
  function Extension(p: string): (r: Option<string>)
    ensures r.Some? ==> FileName(p).Some? && FileName(p).value == FileStem(p).value + "." + r.value
    ensures r.Some? ==> '.' !in r.value && '/' !in r.value
    ensures r.None? ==> FileStem(p) == FileName(p)
    ensures r.Some? <==> FileName(p).Some? && '.' in FileName(p).value[1..]
  {
    var f := FileName(p);
    if f.None? then None else SplitAtLastDot(f.value).ext
  }

  /** The stem used for numbered candidates: the file stem, or "file" when
      the base has no file name. Never empty and never a path. */
  function CandidateStem(base: string): (r: string)
    ensures r != "" && '/' !in r
    ensures FileName(base).None? ==> r == FallbackStem
    ensures FileName(base).Some? ==> r == FileStem(base).value
  {
    FileStem(base).GetOr(FallbackStem)
  }

  /** The extension used for numbered candidates: the extension, or "" when
      there is none. It holds neither '.' nor '/'. */
  function CandidateExt(base: string): (r: string)
    ensures '.' !in r && '/' !in r
    ensures Extension(base).None? ==> r == ""
    ensures Extension(base).Some? ==> r == Extension(base).value
  {
    Extension(base).GetOr("")
  }

  /** A base with no file name ("", "." or "..") numbers its candidates
      "file (i)", with no extension. */
  lemma NamelessBase(base: string)
    requires base == "" || base == "." || base == ".."
    ensures FileName(base).None?
    ensures CandidateStem(base) == FallbackStem && CandidateExt(base) == ""
  {
    Strings.SplitWithoutSeparator(base, '/');
    assert IsLastComponent([base], 0) || Skipped(base);
  }

  /** The `i`-th numbered name, "stem (i).ext", or "stem (i)" when the
      extension is empty. */
  function CandidateName(stem: string, ext: string, i: nat): (r: string)
    ensures |r| > |stem| && r[..|stem|] == stem
    ensures ext != "" ==> |r| > |ext| && r[|r| - |ext| - 1..] == "." + ext
    ensures ext == "" ==> r[|r| - 1] == ')'
    ensures '/' !in stem && '/' !in ext ==> '/' !in r
  {
    if ext == "" then stem + " (" + Strings.NatToString(i) + ")"
    else stem + " (" + Strings.NatToString(i) + ")." + ext
  }

  /** The `i`-th numbered candidate for `base` in `dir`. */
  function Candidate(dir: string, base: string, i: nat): (p: Path)
    ensures p.dir == dir && '/' !in p.name
  {
    Path(dir, CandidateName(CandidateStem(base), CandidateExt(base), i))
  }

  /** Every candidate numbered `lo` up to but excluding `hi` exists. */
  ghost predicate AllTaken(existing: set<Path>, dir: string, base: string, lo: nat, hi: nat) {
    forall j :: lo <= j < hi ==> Candidate(dir, base, j) in existing
  }

  /** `i` is the smallest suffix in 1..MaxSuffix whose candidate is free. */
  ghost predicate IsFirstFree(existing: set<Path>, dir: string, base: string, i: nat) {
    && 1 <= i <= MaxSuffix
    && Candidate(dir, base, i) !in existing
    && AllTaken(existing, dir, base, 1, i)
  }

  /** Numbered candidates of one base are pairwise distinct. */
  lemma CandidateNamesDistinct(stem: string, ext: string, i: nat, j: nat)
    ensures CandidateName(stem, ext, i) == CandidateName(stem, ext, j) ==> i == j
  {
    var a, b := Strings.NatToString(i), Strings.NatToString(j);
    var x, y := CandidateName(stem, ext, i), CandidateName(stem, ext, j);
    if x == y {
      var k := |stem| + 2;
      assert |a| == |b|;
      assert x[k..k + |a|] == a;
      assert y[k..k + |b|] == b;
      Strings.NatToStringInjective(i, j);
    }
  }

  /** The first suffix from `from` on, up to MaxSuffix, whose candidate is
      free, or None when all of them exist. */
  function FirstFreeIndex(existing: set<Path>, dir: string, base: string, from: nat): (r: Option<nat>)
    ensures r.Some? ==> from <= r.value <= MaxSuffix && Candidate(dir, base, r.value) !in existing
    ensures r.Some? ==> AllTaken(existing, dir, base, from, r.value)
    ensures r.None? ==> AllTaken(existing, dir, base, from, MaxSuffix + 1)
    decreases MaxSuffix - from
  {
    if from > MaxSuffix then None
    else if Candidate(dir, base, from) !in existing then Some(from)
    else
      var r := FirstFreeIndex(existing, dir, base, from + 1);
      TakenFrom(existing, dir, base, from, if r.Some? then r.value else MaxSuffix + 1);
      r
  }

  /** A taken candidate extends a taken range up by one. */
  lemma TakenTo(existing: set<Path>, dir: string, base: string, lo: nat, hi: nat)
    requires AllTaken(existing, dir, base, lo, hi)
    requires Candidate(dir, base, hi) in existing
    ensures AllTaken(existing, dir, base, lo, hi + 1)
  {
  }

  /** A taken candidate extends a taken range down by one. */
  lemma TakenFrom(existing: set<Path>, dir: string, base: string, from: nat, hi: nat)
    requires Candidate(dir, base, from) in existing
    requires AllTaken(existing, dir, base, from + 1, hi)
    ensures AllTaken(existing, dir, base, from, hi)
  {
  }

  /** Where a download named `base` is saved in `outDir`. */
  function ResolvedPath(existing: set<Path>, outDir: string, base: string, overwrite: bool): (p: Path)
    ensures p.dir == outDir
    ensures overwrite || Path(outDir, base) !in existing ==> p == Path(outDir, base)
    ensures !overwrite && Path(outDir, base) in existing && AllTaken(existing, outDir, base, 1, MaxSuffix + 1)
            ==> p == Path(outDir, base)
    ensures !overwrite && Path(outDir, base) in existing && !AllTaken(existing, outDir, base, 1, MaxSuffix + 1)
            ==> exists i :: IsFirstFree(existing, outDir, base, i) && p == Candidate(outDir, base, i)
    ensures !overwrite && p != Path(outDir, base) ==> p !in existing
  {
    var path := Path(outDir, base);
    if overwrite || path !in existing then path
    else
      match FirstFreeIndex(existing, outDir, base, 1)
      case Some(i) => Candidate(outDir, base, i)
      case None => path
  }

  /** When the base path is taken, the resolution is the candidate at the
      first free suffix: there is only one first free suffix. */
  lemma ResolvedAtFirstFree(existing: set<Path>, outDir: string, base: string, i: nat)
    requires Path(outDir, base) in existing && IsFirstFree(existing, outDir, base, i)
    ensures ResolvedPath(existing, outDir, base, false) == Candidate(outDir, base, i)
  {
    var r := FirstFreeIndex(existing, outDir, base, 1);
    assert r.Some?;
    assert r.value == i;
  }

  /** The resolution loop: probe the numbered candidates in increasing
      order and stop at the first free one. */
  method PickOutputPath(existing: set<Path>, outDir: string, base: string, overwrite: bool) returns (p: Path)
    ensures p == ResolvedPath(existing, outDir, base, overwrite)
  {
    var path := Path(outDir, base);
    if overwrite || path !in existing {
      return path;
    }
    var stem := CandidateStem(base);
    var ext := CandidateExt(base);
    var i := 1;
    while i <= MaxSuffix
      invariant 1 <= i <= MaxSuffix + 1
      invariant AllTaken(existing, outDir, base, 1, i)
    {
      var candidate := Path(outDir, CandidateName(stem, ext, i));
      if candidate !in existing {
        ResolvedAtFirstFree(existing, outDir, base, i);
        return candidate;
      }
      TakenTo(existing, outDir, base, 1, i);
      i := i + 1;
    }
    return path;
  }

  /** Two resolutions of the same name in a row, the first one's file having
      been created in between, give different paths, unless every numbered
      candidate is already taken. */
  lemma SecondResolutionDiffers(existing: set<Path>, outDir: string, base: string)
    ensures var p1 := ResolvedPath(existing, outDir, base, false);
            var p2 := ResolvedPath(existing + {p1}, outDir, base, false);
            p1 != p2 || AllTaken(existing + {p1}, outDir, base, 1, MaxSuffix + 1)
  {
  }

  /** Two resolutions of "stem.ext" one after the other, into a directory
      holding neither name, where the first file exists before the second
      resolution (as with a concurrency of 1 and a successful first
      download): they give "stem.ext" and then "stem (1).ext". */
  lemma SameNameTwice(existing: set<Path>, outDir: string, stem: string, ext: string)
    requires stem != "" && ext != ""
    requires '.' !in stem && '.' !in ext && '/' !in stem && '/' !in ext
    requires Path(outDir, stem + "." + ext) !in existing
    ensures var p1 := ResolvedPath(existing, outDir, stem + "." + ext, false);
            p1 == Path(outDir, stem + "." + ext)
    ensures Path(outDir, stem + " (1)." + ext) !in existing ==>
            ResolvedPath(existing + {Path(outDir, stem + "." + ext)}, outDir, stem + "." + ext, false)
            == Path(outDir, stem + " (1)." + ext)
  {
    var base := stem + "." + ext;
    var existing' := existing + {Path(outDir, base)};
    FirstCandidateOfPlainName(outDir, stem, ext);
    if Path(outDir, stem + " (1)." + ext) !in existing {
      assert |stem + " (1)." + ext| != |base|;
      assert FirstFreeIndex(existing', outDir, base, 1) == Some(1);
    }
  }

  /** The first numbered candidate for "stem.ext" is "stem (1).ext". */
  lemma FirstCandidateOfPlainName(outDir: string, stem: string, ext: string)
    requires stem != "" && ext != ""
    requires '.' !in stem && '.' !in ext && '/' !in stem && '/' !in ext
    ensures Candidate(outDir, stem + "." + ext, 1) == Path(outDir, stem + " (1)." + ext)
  {
    StemAndExtOfPlainName(stem, ext);
    FirstCandidateName(stem, ext);
  }

  /** Candidate number 1 of a stem with a non-empty extension. */
  lemma FirstCandidateName(stem: string, ext: string)
    requires ext != ""
    ensures CandidateName(stem, ext, 1) == stem + " (1)." + ext
  {
    assert Strings.NatToString(1) == "1";
  }

  /** The stem and extension of "stem.ext" are `stem` and `ext`. */
  lemma StemAndExtOfPlainName(stem: string, ext: string)
    requires stem != "" && ext != ""
    requires '.' !in stem && '.' !in ext && '/' !in stem && '/' !in ext
    ensures CandidateStem(stem + "." + ext) == stem
    ensures CandidateExt(stem + "." + ext) == ext
  {
    var base := stem + "." + ext;
    assert base[|stem|] == '.';
    FileNameOfPlainName(base);
    assert Strings.Join([stem, ext], '.') == base;
    Strings.SplitJoin([stem, ext], '.');
    assert SplitAtLastDot(base) == StemExt(stem, Some(ext));
  }
}
