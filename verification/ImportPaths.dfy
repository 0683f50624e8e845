/**
 The import paths that packages/cloudflare-rolldown-plugin/src/plugins/additional-modules.ts writes
 in the place of module references.
 */
module ImportPaths {
  import opened Text
  import opened Paths
  import AdditionalModules

  /** `path.dirname` of the relative name with these segments. */
  function DirnameText(segs: seq<string>): string
    requires segs != []
  {
    if |segs| == 1 then "." else Join(Dirname(segs), '/')
  }

  /** What the chunk called `chunk` imports the file called `file` as; both are relative to `cwd`. */
  function ImportPath(cwd: seq<string>, chunk: seq<string>, file: seq<string>): string
    requires chunk != []
  {
    var from := ResolveSegments(cwd, DirnameText(chunk));
    var to := ResolveSegments(cwd, Join(file, '/'));
    var relativePath := ToSlashes(Join(RelativeSegments(from, to), '/'));
    if relativePath != "" && relativePath[0] == '.' then relativePath else "./" + relativePath
  }

  /** What a module loader resolves against the importing module instead of looking up as a package. */
  predicate IsRelativeSpecifier(specifier: string) {
    || specifier == "." || specifier == ".."
    || (|specifier| > 1 && specifier[0] == '.' && specifier[1] == '/')
    || (|specifier| > 2 && specifier[0] == '.' && specifier[1] == '.' && specifier[2] == '/')
  }

  lemma ResolveOfName(cwd: seq<string>, segs: seq<string>)
    requires Clean(segs) && segs != []
    ensures ResolveSegments(cwd, Join(segs, '/')) == cwd + segs
    ensures ResolveSegments(cwd, DirnameText(segs)) == cwd + Dirname(segs)
  {
    TextOfSegments(segs);
    PushClean(cwd, segs, false);
    if |segs| == 1 {
      assert Split(".", '/') == ["."] by {
        SplitNoSeparator(".", '/');
      }
      assert ["."][1..] == [];
    } else {
      TextOfSegments(Dirname(segs));
      PushClean(cwd, Dirname(segs), false);
    }
  }

  /** The part of the file's name that the import path spells out. */
  function Below(chunk: seq<string>, file: seq<string>): seq<string>
    requires chunk != []
  {
    file[CommonPrefix(Dirname(chunk), file)..]
  }

  function RelativeText(chunk: seq<string>, file: seq<string>): string
    requires chunk != []
  {
    Join(RelativeSegments(Dirname(chunk), file), '/')
  }

  /** The import path depends on the two names only. */
  lemma ImportPathText(cwd: seq<string>, chunk: seq<string>, file: seq<string>)
    requires Clean(chunk) && chunk != [] && Clean(file) && file != []
    ensures
      var text := ToSlashes(RelativeText(chunk, file));
      ImportPath(cwd, chunk, file) == if text != "" && text[0] == '.' then text else "./" + text
  {
    var dir := Dirname(chunk);
    ResolveOfName(cwd, chunk);
    ResolveOfName(cwd, file);
    RelativeShifted(cwd, dir, file);
  }

  lemma ImportPathDenotes(cwd: seq<string>, chunk: seq<string>, file: seq<string>)
    requires Clean(chunk) && chunk != [] && Clean(file) && file != []
    ensures ResolveSegments(cwd + Dirname(chunk), ImportPath(cwd, chunk, file))
         == PushAll(cwd + Dirname(chunk), Split(ToSlashes(RelativeText(chunk, file)), '/'), false)
  {
    ImportPathText(cwd, chunk, file);
    DotSlash(cwd + Dirname(chunk), ToSlashes(RelativeText(chunk, file)));
  }

  lemma PortableText(chunk: seq<string>, file: seq<string>)
    requires chunk != [] && NoBackslash(Below(chunk, file))
    ensures ToSlashes(RelativeText(chunk, file)) == RelativeText(chunk, file)
  {
    JoinNoBackslash(RelativeSegments(Dirname(chunk), file));
    ToSlashesIsIdentity(RelativeText(chunk, file));
  }

  lemma WalkRelative(from: seq<string>, to: seq<string>)
    requires Clean(from) && Clean(to)
    ensures PushAll(from, Split(Join(RelativeSegments(from, to), '/'), '/'), false) == to
  {
    ResolveOfRelative(from, to);
    RelativeSegmentsAreProper(from, to);
    TextOfSegments(RelativeSegments(from, to));
  }

  lemma PortableImportResolves(cwd: seq<string>, chunk: seq<string>, file: seq<string>)
    requires Clean(cwd) && Clean(chunk) && chunk != [] && Clean(file) && file != []
    requires NoBackslash(Below(chunk, file))
    ensures ResolveSegments(cwd + Dirname(chunk), ImportPath(cwd, chunk, file)) == cwd + file
  {
    ImportPathDenotes(cwd, chunk, file);
    PortableText(chunk, file);
    RelativeShifted(cwd, Dirname(chunk), file);
    WalkRelative(cwd + Dirname(chunk), cwd + file);
  }

  /**
   The import path leads from the chunk's directory back to the emitted file exactly when the part
   of its name that the path spells out has no backslash.
   */
  lemma ImportResolvesBack(cwd: seq<string>, chunk: seq<string>, file: seq<string>)
    requires Clean(cwd) && Clean(chunk) && chunk != [] && Clean(file) && file != []
    ensures ResolveSegments(cwd + Dirname(chunk), ImportPath(cwd, chunk, file)) == cwd + file <==> NoBackslash(Below(chunk, file))
  {
    if NoBackslash(Below(chunk, file)) {
      PortableImportResolves(cwd, chunk, file);
    } else {
      var k := CommonPrefix(Dirname(chunk), file);
      var i :| 0 <= i < |Below(chunk, file)| && '\\' in Below(chunk, file)[i];
      ImportPathDenotes(cwd, chunk, file);
      BackslashIsLost(cwd, Dirname(chunk), file, ToSlashes(RelativeText(chunk, file)), k + i);
    }
  }

  /** The file is at or below the chunk's directory, by a name that starts with a dot. */
  predicate IsDotBelow(chunk: seq<string>, file: seq<string>)
    requires chunk != []
  {
    var dir := Dirname(chunk);
    |dir| < |file| && file[..|dir|] == dir && file[|dir|] != "" && file[|dir|][0] == '.'
  }

  lemma FirstSegment(dir: seq<string>, file: seq<string>)
    requires RelativeSegments(dir, file) != []
    ensures
      RelativeSegments(dir, file)[0] == if |dir| < |file| && file[..|dir|] == dir then file[|dir|] else ".."
  {
    assert dir[..|dir|] == dir;
    if |dir| < |file| && file[..|dir|] == dir {
      CommonPrefixIsLongest(dir, file, |dir|);
    }
  }

  lemma SpecifierBegins(first: string, text: string)
    requires first == ".." || IsClean(first)
    requires |first| <= |text| && text[..|first|] == first && (text == first || (|first| < |text| && text[|first|] == '/'))
    ensures
      var path := if text[0] == '.' then text else "./" + text;
      IsRelativeSpecifier(path) <==> first == ".." || first[0] != '.'
  {
    assert forall i :: 0 <= i < |first| ==> text[i] == first[i];
    if |first| == 1 {
      assert first == [first[0]];
    } else if |first| == 2 {
      assert first == [first[0], first[1]];
    }
    assert forall i :: 0 <= i < |first| ==> first[i] in first;
  }

  /** A loader takes the import path for a relative one unless the file's first own segment starts with a dot. */
  lemma ImportIsRelative(cwd: seq<string>, chunk: seq<string>, file: seq<string>)
    requires Clean(chunk) && chunk != [] && Clean(file) && file != [] && NoBackslash(Below(chunk, file))
    ensures IsRelativeSpecifier(ImportPath(cwd, chunk, file)) <==> !IsDotBelow(chunk, file)
  {
    var dir := Dirname(chunk);
    var segs := RelativeSegments(dir, file);
    ImportPathText(cwd, chunk, file);
    PortableText(chunk, file);
    RelativeSegmentsAreProper(dir, file);
    JoinBegins(segs);
    if segs != [] {
      FirstSegment(dir, file);
      SpecifierBegins(segs[0], Join(segs, '/'));
    }
  }

  lemma JoinBegins(segs: seq<string>)
    requires Relativish(segs)
    ensures segs == [] ==> Join(segs, '/') == ""
    ensures segs != [] ==> |segs[0]| <= |Join(segs, '/')| && Join(segs, '/')[..|segs[0]|] == segs[0]
    ensures |segs| > 1 ==> |segs[0]| < |Join(segs, '/')| && Join(segs, '/')[|segs[0]|] == '/'
    ensures |segs| == 1 ==> Join(segs, '/') == segs[0]
  {
  }

  // ----- the imports of a rewritten chunk -----

  /** The references that stand in marked code. */
  function ReferencesOf(m: AdditionalModules.Marked): set<AdditionalModules.Reference> {
    match m
    case Last(_) => {}
    case Piece(_, r, rest) => {r} + ReferencesOf(rest)
  }

  /** `file(r)` is the name under which the bundler emits the file of reference `r`. */
  predicate AreEmitted(m: AdditionalModules.Marked, file: AdditionalModules.Reference -> seq<string>) {
    forall r :: r in ReferencesOf(m) ==> Clean(file(r)) && file(r) != []
  }

  /** From the chunk's directory, what stands for `r` denotes the file emitted for it. */
  predicate LeadsToFile(cwd: seq<string>, chunk: seq<string>, file: AdditionalModules.Reference -> seq<string>,
          r: AdditionalModules.Reference)
    requires chunk != []
  {
    ResolveSegments(cwd + Dirname(chunk), ImportPath(cwd, chunk, file(r))) == cwd + file(r)
  }

  /**
   The rewrite of a chunk keeps its text and imports each referenced file by a path that leads to it,
   exactly when no name that a path spells out has a backslash; such a path is relative exactly when
   the name does not start with a dot in the chunk's directory.
   */
  method RewriteChunk(m: AdditionalModules.Marked, cwd: seq<string>, chunk: seq<string>,
          file: AdditionalModules.Reference -> seq<string>) returns (rewritten: string)
    requires AdditionalModules.IsWellMarked(m) && AreEmitted(m, file)
    requires Clean(cwd) && Clean(chunk) && chunk != []
    ensures rewritten == AdditionalModules.Render(m, r => ImportPath(cwd, chunk, file(r)))
    ensures forall r :: r in ReferencesOf(m) ==>
      (LeadsToFile(cwd, chunk, file, r) <==> NoBackslash(Below(chunk, file(r))))
    ensures forall r :: r in ReferencesOf(m) && NoBackslash(Below(chunk, file(r))) ==>
      (IsRelativeSpecifier(ImportPath(cwd, chunk, file(r))) <==> !IsDotBelow(chunk, file(r)))
  {
    rewritten := AdditionalModules.RewriteMarkedCode(m, r => ImportPath(cwd, chunk, file(r)));
    forall r | r in ReferencesOf(m)
      ensures LeadsToFile(cwd, chunk, file, r) <==> NoBackslash(Below(chunk, file(r)))
    {
      ImportResolvesBack(cwd, chunk, file(r));
    }
    forall r | r in ReferencesOf(m) && NoBackslash(Below(chunk, file(r)))
      ensures IsRelativeSpecifier(ImportPath(cwd, chunk, file(r))) <==> !IsDotBelow(chunk, file(r))
    {
      ImportIsRelative(cwd, chunk, file(r));
    }
  }

  // ----- names for which an import fails -----

  /** The file `a\b.bin` beside the chunk is imported as `./a/b.bin`, which is another one. */
  lemma BackslashNameIsAnother(cwd: seq<string>, chunk: string, file: string)
    requires Clean(cwd) && chunk == "index.js" && file == "a\\b.bin"
    ensures ResolveSegments(cwd, ImportPath(cwd, [chunk], [file])) != cwd + [file]
  {
    assert file[1] == '\\';
    assert Below([chunk], [file]) == [file];
    ImportResolvesBack(cwd, [chunk], [file]);
    assert Dirname([chunk]) == [] && cwd + [] == cwd;
  }

  /** The file `.x.wasm` beside the chunk is imported by a name that a loader looks up as a package. */
  lemma DotNameIsAPackage(cwd: seq<string>, chunk: string, file: string)
    requires chunk == "index.js" && file == ".x.wasm"
    ensures ImportPath(cwd, [chunk], [file]) == file && !IsRelativeSpecifier(file)
  {
    assert Dirname([chunk]) == [];
    assert RelativeSegments([], [file]) == [file];
    assert Join([file], '/') == file;
    ToSlashesIsIdentity(file);
    ImportPathText(cwd, [chunk], [file]);
  }
}
